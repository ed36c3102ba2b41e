/**
 Word counting for spaced and unspaced scripts (internal/agent/moderator/word_count.go).
 The Unicode tables of letters and digits are a parameter.
 */
module WordCount {
  import opened Builder

  const MIN_COMMENT_WORDS := 100

  type Alphabet = char -> bool

  predicate IsHan(c: char) {
    || '\U{4E00}' <= c <= '\U{9FFF}'
    || '\U{3400}' <= c <= '\U{4DBF}'
    || '\U{F900}' <= c <= '\U{FAFF}'
  }

  /** A letter or digit that is not counted by itself. */
  predicate IsWordRune(abc: Alphabet, c: char) {
    !IsHan(c) && abc(c)
  }

  /** The maximal runs of characters that are not white space. */
  function Fields(s: string): (fs: seq<string>)
    ensures s != "" && !IsSpace(s[|s| - 1]) ==> fs != []
  {
    if s == "" then [] else
      var before, c := s[..|s| - 1], s[|s| - 1];
      var fs := Fields(before);
      if IsSpace(c) then fs
      else if before != "" && !IsSpace(before[|before| - 1]) then fs[..|fs| - 1] + [fs[|fs| - 1] + [c]]
      else fs + [[c]]
  }

  function HanRunes(f: string): nat {
    if f == "" then 0 else HanRunes(f[..|f| - 1]) + (if IsHan(f[|f| - 1]) then 1 else 0)
  }

  predicate HasWordRune(abc: Alphabet, f: string) {
    exists i :: 0 <= i < |f| && IsWordRune(abc, f[i])
  }

  function FieldWords(abc: Alphabet, f: string): nat {
    HanRunes(f) + (if HasWordRune(abc, f) then 1 else 0)
  }

  function FieldsWords(abc: Alphabet, fs: seq<string>): nat {
    if fs == [] then 0 else FieldsWords(abc, fs[..|fs| - 1]) + FieldWords(abc, fs[|fs| - 1])
  }

  /** The words of a text: those of its fields. */
  function Words(abc: Alphabet, s: string): nat {
    FieldsWords(abc, Fields(s))
  }

  method CountWords(abc: Alphabet, s: string) returns (count: nat)
    ensures count == Words(abc, s)
  {
    count := 0;
    var fields := Fields(s);
    for i := 0 to |fields|
      invariant count == FieldsWords(abc, fields[..i])
    {
      var field := fields[i];
      var cjk := 0;
      var hasWordRune := false;
      for j := 0 to |field|
        invariant cjk == HanRunes(field[..j])
        invariant hasWordRune <==> HasWordRune(abc, field[..j])
      {
        assert field[..j + 1][..j] == field[..j];
        assert field[..j + 1] == field[..j] + [field[j]];
        if IsHan(field[j]) {
          cjk := cjk + 1;
        } else if abc(field[j]) {
          hasWordRune := true;
          assert IsWordRune(abc, field[..j + 1][j]);
        }
      }
      assert field[..|field|] == field;
      assert fields[..i + 1][..i] == fields[..i];
      count := count + cjk;
      if hasWordRune {
        count := count + 1;
      }
    }
    assert fields[..|fields|] == fields;
  }

  method ValidateCommentLength(abc: Alphabet, comment: string) returns (ok: bool)
    ensures ok <==> Words(abc, comment) > 100
  {
    var n := CountWords(abc, comment);
    ok := !(n <= MIN_COMMENT_WORDS);
  }

  // ------------------------------------------------- one pass over the characters

  /** Whether the field that reaches the end of `s` has a word rune already. */
  predicate Running(abc: Alphabet, s: string) {
    s != "" && !IsSpace(s[|s| - 1]) && (IsWordRune(abc, s[|s| - 1]) || Running(abc, s[..|s| - 1]))
  }

  /** Counting as one pass: a Han rune always, a word rune when it is the first of its field. */
  function Scan(abc: Alphabet, s: string): nat {
    if s == "" then 0 else
      var before, c := s[..|s| - 1], s[|s| - 1];
      Scan(abc, before)
      + (if IsSpace(c) then 0 else if IsHan(c) then 1
         else if abc(c) && !Running(abc, before) then 1 else 0)
  }

  lemma HanIsNoSpace(c: char)
    ensures IsHan(c) ==> !IsSpace(c)
  {
  }

  lemma FieldSnoc(abc: Alphabet, f: string, c: char)
    ensures HanRunes(f + [c]) == HanRunes(f) + (if IsHan(c) then 1 else 0)
    ensures HasWordRune(abc, f + [c]) <==> HasWordRune(abc, f) || IsWordRune(abc, c)
  {
    assert (f + [c])[..|f|] == f;
    if i :| 0 <= i < |f| && IsWordRune(abc, f[i]) {
      assert IsWordRune(abc, (f + [c])[i]);
    }
    assert IsWordRune(abc, c) ==> IsWordRune(abc, (f + [c])[|f|]);
  }

  lemma FieldsSnoc(abc: Alphabet, fs: seq<string>, f: string)
    ensures FieldsWords(abc, fs + [f]) == FieldsWords(abc, fs) + FieldWords(abc, f)
  {
    assert (fs + [f])[..|fs|] == fs;
  }

  /** Lengthening the last field by one rune. */
  lemma LongerField(abc: Alphabet, fs: seq<string>, c: char)
    requires fs != []
    ensures var last := fs[|fs| - 1];
            && FieldsWords(abc, fs[..|fs| - 1] + [last + [c]]) == FieldsWords(abc, fs)
               + (if IsHan(c) then 1 else if abc(c) && !HasWordRune(abc, last) then 1 else 0)
            && (HasWordRune(abc, last + [c]) <==> HasWordRune(abc, last) || IsWordRune(abc, c))
  {
    hide *;
    var init, last := fs[..|fs| - 1], fs[|fs| - 1];
    assert fs == init + [last];
    FieldsSnoc(abc, init, last);
    FieldsSnoc(abc, init, last + [c]);
    FieldSnoc(abc, last, c);
    FieldGrows(abc, last, c);
  }

  lemma FieldGrows(abc: Alphabet, f: string, c: char)
    ensures FieldWords(abc, f + [c]) == FieldWords(abc, f)
            + (if IsHan(c) then 1 else if abc(c) && !HasWordRune(abc, f) then 1 else 0)
  {
    hide IsHan, HanRunes, HasWordRune;
    FieldSnoc(abc, f, c);
  }

  /** Beginning a field with one rune. */
  lemma NewField(abc: Alphabet, fs: seq<string>, c: char)
    ensures FieldsWords(abc, fs + [[c]]) == FieldsWords(abc, fs) + (if IsHan(c) || abc(c) then 1 else 0)
    ensures HasWordRune(abc, [c]) <==> IsWordRune(abc, c)
  {
    EmptyField(abc);
    hide IsHan, HanRunes, HasWordRune, FieldsWords;
    FieldsSnoc(abc, fs, [c]);
    FieldSnoc(abc, "", c);
    assert "" + [c] == [c];
  }

  lemma EmptyField(abc: Alphabet)
    ensures HanRunes("") == 0 && !HasWordRune(abc, "")
  {
  }

  /** The field-by-field count and the one-pass count agree. */
  lemma {:induction false} WordsIsScan(abc: Alphabet, s: string)
    ensures Words(abc, s) == Scan(abc, s)
    ensures s != "" && !IsSpace(s[|s| - 1]) ==>
              Running(abc, s) == HasWordRune(abc, Fields(s)[|Fields(s)| - 1])
  {
    hide IsSpace, IsHan, FieldsWords, HasWordRune;
    if s != "" {
      var before, c := s[..|s| - 1], s[|s| - 1];
      WordsIsScan(abc, before);
      HanIsNoSpace(c);
      if IsSpace(c) {
      } else if before != "" && !IsSpace(before[|before| - 1]) {
        LongerField(abc, Fields(before), c);
      } else {
        NewField(abc, Fields(before), c);
      }
    } else {
      NoFields(abc);
    }
  }

  lemma NoFields(abc: Alphabet)
    ensures FieldsWords(abc, []) == 0
  {
  }

  // ------------------------------------------------- concatenation

  predicate NoSpace(s: string) {
    forall i :: 0 <= i < |s| ==> !IsSpace(s[i])
  }

  predicate LeadsAt(abc: Alphabet, s: string, i: nat)
    requires i < |s|
  {
    NoSpace(s[..i + 1]) && IsWordRune(abc, s[i])
  }

  /** Whether the field at the very start of `s` has a word rune. */
  predicate Leading(abc: Alphabet, s: string) {
    exists i: nat :: i < |s| && LeadsAt(abc, s, i)
  }

  lemma LeadingSnoc(abc: Alphabet, s: string, c: char)
    ensures Leading(abc, s + [c]) <==> Leading(abc, s) || (NoSpace(s + [c]) && IsWordRune(abc, c))
  {
    hide IsSpace, IsWordRune, NoSpace;
    var t := s + [c];
    assert t[..|s| + 1] == t;
    assert LeadsAt(abc, t, |s|) <==> NoSpace(t) && IsWordRune(abc, c);
    forall i: nat | i < |s|
      ensures LeadsAt(abc, t, i) <==> LeadsAt(abc, s, i)
    {
      assert t[..i + 1] == s[..i + 1];
    }
  }

  lemma NoSpaceSnoc(s: string, c: char)
    ensures NoSpace(s + [c]) <==> NoSpace(s) && !IsSpace(c)
  {
    hide IsSpace;
    assert (s + [c])[|s|] == c;
    assert forall i :: 0 <= i < |s| ==> (s + [c])[i] == s[i];
  }

  lemma {:induction false} RunningWithoutSpace(abc: Alphabet, s: string)
    requires NoSpace(s)
    ensures Running(abc, s) <==> Leading(abc, s)
  {
    hide IsSpace, IsWordRune;
    if s != "" {
      var before, c := s[..|s| - 1], s[|s| - 1];
      assert s == before + [c];
      NoSpaceSnoc(before, c);
      LeadingSnoc(abc, before, c);
      RunningWithoutSpace(abc, before);
    }
  }

  lemma ScanSnoc(abc: Alphabet, s: string, c: char)
    ensures Scan(abc, s + [c]) == Scan(abc, s)
            + (if IsSpace(c) then 0 else if IsHan(c) then 1 else if abc(c) && !Running(abc, s) then 1 else 0)
    ensures Running(abc, s + [c]) <==> !IsSpace(c) && (IsWordRune(abc, c) || Running(abc, s))
  {
    assert (s + [c])[..|s|] == s;
  }

  /** A sample: each Han rune is a word, so is each field with another letter, bare punctuation is not. */
  lemma MixedSample(abc: Alphabet)
    requires abc('a') && abc('b') && !abc('-')
    ensures Words(abc, "a\U{4F60}b -\U{3400}") == 3
  {
    hide *;
    SampleRunes(abc);
    ScanNothing(abc);
    ScanSnoc(abc, "", 'a');
    ScanSnoc(abc, "a", '\U{4F60}');
    ScanSnoc(abc, "a\U{4F60}", 'b');
    assert "" + ['a'] == "a" && "a" + ['\U{4F60}'] == "a\U{4F60}" && "a\U{4F60}" + ['b'] == "a\U{4F60}b";
    ScanSnoc(abc, "a\U{4F60}b", ' ');
    ScanSnoc(abc, "a\U{4F60}b ", '-');
    ScanSnoc(abc, "a\U{4F60}b -", '\U{3400}');
    assert "a\U{4F60}b" + [' '] == "a\U{4F60}b " && "a\U{4F60}b " + ['-'] == "a\U{4F60}b -";
    assert "a\U{4F60}b -" + ['\U{3400}'] == "a\U{4F60}b -\U{3400}";
    WordsIsScan(abc, "a\U{4F60}b -\U{3400}");
  }

  lemma SampleRunes(abc: Alphabet)
    ensures IsHan('\U{4F60}') && IsHan('\U{3400}') && !IsHan('a') && !IsHan('b') && !IsHan('-') && IsSpace(' ')
    ensures !IsSpace('\U{4F60}') && !IsSpace('\U{3400}') && !IsSpace('a') && !IsSpace('b') && !IsSpace('-')
    ensures IsWordRune(abc, 'a') <==> abc('a')
  {
  }

  lemma ScanNothing(abc: Alphabet)
    ensures Scan(abc, "") == 0 && !Running(abc, "")
  {
  }

  /** Whether joining `a` and `b` fuses two fields that each counted a word. */
  predicate Fuses(abc: Alphabet, a: string, b: string) {
    Running(abc, a) && Leading(abc, b)
  }

  lemma {:induction false} ScanConcat(abc: Alphabet, a: string, b: string)
    ensures Scan(abc, a + b) + (if Fuses(abc, a, b) then 1 else 0) == Scan(abc, a) + Scan(abc, b)
    ensures Running(abc, a + b) <==> Running(abc, b) || (Running(abc, a) && NoSpace(b))
    decreases |b|
  {
    hide IsSpace, IsHan, Scan, Running, Leading, NoSpace;
    if b == "" {
      assert a + b == a;
      EmptyText(abc);
    } else {
      var before, c := b[..|b| - 1], b[|b| - 1];
      assert b == before + [c] && a + b == (a + before) + [c];
      ScanConcat(abc, a, before);
      ScanSnoc(abc, a + before, c);
      ScanSnoc(abc, before, c);
      LeadingSnoc(abc, before, c);
      NoSpaceSnoc(before, c);
      if NoSpace(before) {
        RunningWithoutSpace(abc, before);
      }
    }
  }

  lemma EmptyText(abc: Alphabet)
    ensures Scan(abc, "") == 0 && !Running(abc, "") && !Leading(abc, "") && NoSpace("")
  {
  }

  /**
   Joining two texts adds their counts, less one exactly when the join fuses a last
   field and a first field that both counted a word for their letters or digits.
   */
  lemma WordsOfConcat(abc: Alphabet, a: string, b: string)
    ensures Words(abc, a + b) == Words(abc, a) + Words(abc, b) - (if Fuses(abc, a, b) then 1 else 0)
  {
    hide Words, Scan, Fuses;
    WordsIsScan(abc, a);
    WordsIsScan(abc, b);
    WordsIsScan(abc, a + b);
    ScanConcat(abc, a, b);
  }

  /** White space between two texts keeps their counts apart. */
  lemma WordsAcrossSpace(abc: Alphabet, a: string, space: char, b: string)
    requires IsSpace(space)
    ensures Words(abc, a + [space] + b) == Words(abc, a) + Words(abc, b)
  {
    hide Words, Scan, IsSpace, IsHan, Leading;
    WordsOfConcat(abc, a + [space], b);
    ScanSnoc(abc, a, space);
    WordsIsScan(abc, a);
    WordsIsScan(abc, a + [space]);
  }

  /** Appending text never lowers the count, so a comment that is long enough stays long enough. */
  lemma WordsMonotone(abc: Alphabet, a: string, b: string)
    ensures Words(abc, a) <= Words(abc, a + b)
    ensures Words(abc, a) > MIN_COMMENT_WORDS ==> Words(abc, a + b) > MIN_COMMENT_WORDS
  {
    hide Words, Scan, IsSpace, IsHan, Leading, Running;
    WordsOfConcat(abc, a, b);
    if Fuses(abc, a, b) {
      LeadingCounts(abc, b);
      WordsIsScan(abc, b);
    }
  }

  lemma {:induction false} LeadingCounts(abc: Alphabet, b: string)
    requires Leading(abc, b)
    ensures Scan(abc, b) >= 1
  {
    hide IsSpace, Leading;
    if b == "" {
      EmptyText(abc);
    } else {
      var before, c := b[..|b| - 1], b[|b| - 1];
      assert b == before + [c];
      LeadingSnoc(abc, before, c);
      NoSpaceSnoc(before, c);
      if Leading(abc, before) {
        LeadingCounts(abc, before);
      } else {
        RunningWithoutSpace(abc, before);
      }
    }
  }
}
