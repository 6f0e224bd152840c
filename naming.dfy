/** `snakeCase` of src/utils.ts, over ASCII text: two regular-expression rewrites that
    insert underscores, then lower-casing. */
module Naming {

  predicate IsUpper(c: char) { 'A' <= c <= 'Z' }
  predicate IsLower(c: char) { 'a' <= c <= 'z' }
  predicate IsDigit(c: char) { '0' <= c <= '9' }

  predicate IsAscii(s: string) {
    forall i :: 0 <= i < |s| ==> s[i] < 128 as char
  }

  predicate HasNoUpper(s: string) {
    forall i :: 0 <= i < |s| ==> !IsUpper(s[i])
  }

  /** `.replace(/([A-Z])([A-Z])([a-z])/g, "$1_$2$3")`: the global match scans left to right
      and resumes after each three-character match. */
  function SplitAcronyms(s: string): string
    decreases |s|
  {
    if |s| < 3 then s
    else if IsUpper(s[0]) && IsUpper(s[1]) && IsLower(s[2]) then
      [s[0], '_', s[1], s[2]] + SplitAcronyms(s[3..])
    else [s[0]] + SplitAcronyms(s[1..])
  }

  /** `.replace(/([a-z0-9])([A-Z])/g, "$1_$2")`, resuming after each two-character match. */
  function SplitWords(s: string): string
    decreases |s|
  {
    if |s| < 2 then s
    else if (IsLower(s[0]) || IsDigit(s[0])) && IsUpper(s[1]) then
      [s[0], '_', s[1]] + SplitWords(s[2..])
    else [s[0]] + SplitWords(s[1..])
  }

  function LowerChar(c: char): char {
    if IsUpper(c) then (c as int + 32) as char else c
  }

  /** `toLowerCase`, which on ASCII text changes only `A`-`Z`. */
  function ToLowerAscii(s: string): string {
    if s == [] then [] else [LowerChar(s[0])] + ToLowerAscii(s[1..])
  }

  /** snakeCase, for ASCII input. */
  function SnakeCase(s: string): string
    requires IsAscii(s)
  {
    ToLowerAscii(SplitWords(SplitAcronyms(s)))
  }

  /** `s` without its underscores. */
  function Strip(s: string): string {
    if s == [] then [] else (if s[0] == '_' then [] else [s[0]]) + Strip(s[1..])
  }

  /* ---- Properties ---- */

  lemma {:induction false} StripConcat(a: string, b: string)
    ensures Strip(a + b) == Strip(a) + Strip(b)
  {
    if a == [] {
      assert a + b == b;
    } else {
      var head := if a[0] == '_' then [] else [a[0]];
      assert (a + b)[0] == a[0];
      assert (a + b)[1..] == a[1..] + b;
      StripConcat(a[1..], b);
      calc {
        Strip(a + b);
        head + Strip(a[1..] + b);
        head + (Strip(a[1..]) + Strip(b));
        (head + Strip(a[1..])) + Strip(b);
        Strip(a) + Strip(b);
      }
    }
  }

  lemma StripCons(c: char, t: string)
    ensures Strip([c] + t) == (if c == '_' then [] else [c]) + Strip(t)
  {
    assert ([c] + t)[1..] == t;
  }

  /** The first rewrite only inserts underscores. */
  lemma {:induction false} SplitAcronymsOnlyInserts(s: string)
    ensures Strip(SplitAcronyms(s)) == Strip(s)
    decreases |s|
  {
    if |s| >= 3 {
      if IsUpper(s[0]) && IsUpper(s[1]) && IsLower(s[2]) {
        var rest := SplitAcronyms(s[3..]);
        SplitAcronymsOnlyInserts(s[3..]);
        assert [s[0], '_', s[1], s[2]] + rest == [s[0]] + (['_'] + ([s[1]] + ([s[2]] + rest)));
        StripCons(s[2], rest);
        StripCons(s[1], [s[2]] + rest);
        StripCons('_', [s[1]] + ([s[2]] + rest));
        StripCons(s[0], ['_'] + ([s[1]] + ([s[2]] + rest)));
        assert s == [s[0]] + ([s[1]] + ([s[2]] + s[3..]));
        StripCons(s[2], s[3..]);
        StripCons(s[1], [s[2]] + s[3..]);
        StripCons(s[0], [s[1]] + ([s[2]] + s[3..]));
      } else {
        SplitAcronymsOnlyInserts(s[1..]);
        assert s == [s[0]] + s[1..];
        StripCons(s[0], s[1..]);
        StripCons(s[0], SplitAcronyms(s[1..]));
      }
    }
  }

  /** The second rewrite only inserts underscores. */
  lemma {:induction false} SplitWordsOnlyInserts(s: string)
    ensures Strip(SplitWords(s)) == Strip(s)
    decreases |s|
  {
    if |s| >= 2 {
      if (IsLower(s[0]) || IsDigit(s[0])) && IsUpper(s[1]) {
        var rest := SplitWords(s[2..]);
        SplitWordsOnlyInserts(s[2..]);
        assert [s[0], '_', s[1]] + rest == [s[0]] + (['_'] + ([s[1]] + rest));
        StripCons(s[1], rest);
        StripCons('_', [s[1]] + rest);
        StripCons(s[0], ['_'] + ([s[1]] + rest));
        assert s == [s[0]] + ([s[1]] + s[2..]);
        StripCons(s[1], s[2..]);
        StripCons(s[0], [s[1]] + s[2..]);
      } else {
        SplitWordsOnlyInserts(s[1..]);
        assert s == [s[0]] + s[1..];
        StripCons(s[0], s[1..]);
        StripCons(s[0], SplitWords(s[1..]));
      }
    }
  }

  lemma {:induction false} LowerCommutesWithStrip(s: string)
    ensures Strip(ToLowerAscii(s)) == ToLowerAscii(Strip(s))
  {
    if s != [] {
      LowerCommutesWithStrip(s[1..]);
      StripConcat([LowerChar(s[0])], ToLowerAscii(s[1..]));
      if s[0] == '_' {
        assert Strip(s) == Strip(s[1..]);
      } else {
        assert Strip(s) == [s[0]] + Strip(s[1..]);
        LowerConcat([s[0]], Strip(s[1..]));
      }
    }
  }

  lemma {:induction false} LowerConcat(a: string, b: string)
    ensures ToLowerAscii(a + b) == ToLowerAscii(a) + ToLowerAscii(b)
  {
    if a == [] {
      assert a + b == b;
    } else {
      assert (a + b)[0] == a[0];
      assert (a + b)[1..] == a[1..] + b;
      LowerConcat(a[1..], b);
    }
  }

  lemma {:induction false} LowerHasNoUpper(s: string)
    ensures |ToLowerAscii(s)| == |s|
    ensures HasNoUpper(ToLowerAscii(s))
  {
    if s != [] {
      LowerHasNoUpper(s[1..]);
    }
  }

  lemma {:induction false} LowerKeepsAscii(s: string)
    requires IsAscii(s)
    ensures IsAscii(ToLowerAscii(s))
  {
    if s != [] {
      LowerKeepsAscii(s[1..]);
    }
  }

  lemma {:induction false} LowerIdentity(s: string)
    requires HasNoUpper(s)
    ensures ToLowerAscii(s) == s
  {
    if s != [] {
      LowerIdentity(s[1..]);
    }
  }

  lemma {:induction false} SplitAcronymsIdentity(s: string)
    requires HasNoUpper(s)
    ensures SplitAcronyms(s) == s
    decreases |s|
  {
    if |s| >= 3 {
      SplitAcronymsIdentity(s[1..]);
    }
  }

  lemma {:induction false} SplitWordsIdentity(s: string)
    requires HasNoUpper(s)
    ensures SplitWords(s) == s
    decreases |s|
  {
    if |s| >= 2 {
      SplitWordsIdentity(s[1..]);
    }
  }

  /** The result holds no upper-case letter. */
  lemma SnakeCaseHasNoUpper(s: string)
    requires IsAscii(s)
    ensures HasNoUpper(SnakeCase(s))
  {
    LowerHasNoUpper(SplitWords(SplitAcronyms(s)));
  }

  /** Text without upper-case letters is returned unchanged. */
  lemma SnakeCaseKeepsLowerCase(s: string)
    requires IsAscii(s) && HasNoUpper(s)
    ensures SnakeCase(s) == s
  {
    SplitAcronymsIdentity(s);
    SplitWordsIdentity(s);
    LowerIdentity(s);
  }

  /** The two rewrites only insert underscores: with underscores removed, the result is
      the lower-cased input with underscores removed. */
  lemma SnakeCaseOnlyInsertsUnderscores(s: string)
    requires IsAscii(s)
    ensures Strip(SnakeCase(s)) == ToLowerAscii(Strip(s))
  {
    SplitAcronymsOnlyInserts(s);
    SplitWordsOnlyInserts(SplitAcronyms(s));
    LowerCommutesWithStrip(SplitWords(SplitAcronyms(s)));
  }

  /** Converting twice is converting once. */
  lemma SnakeCaseIdempotent(s: string)
    requires IsAscii(s)
    ensures IsAscii(SnakeCase(s)) && SnakeCase(SnakeCase(s)) == SnakeCase(s)
  {
    SnakeCaseHasNoUpper(s);
    var x := SplitWords(SplitAcronyms(s));
    assert IsAscii(x) by {
      SplitAcronymsKeepsAscii(s);
      SplitWordsKeepsAscii(SplitAcronyms(s));
    }
    LowerKeepsAscii(x);
    SnakeCaseKeepsLowerCase(SnakeCase(s));
  }

  lemma {:induction false} SplitAcronymsKeepsAscii(s: string)
    requires IsAscii(s)
    ensures IsAscii(SplitAcronyms(s))
    decreases |s|
  {
    if |s| >= 3 {
      if IsUpper(s[0]) && IsUpper(s[1]) && IsLower(s[2]) {
        SplitAcronymsKeepsAscii(s[3..]);
      } else {
        SplitAcronymsKeepsAscii(s[1..]);
      }
    }
  }

  lemma {:induction false} SplitWordsKeepsAscii(s: string)
    requires IsAscii(s)
    ensures IsAscii(SplitWords(s))
    decreases |s|
  {
    if |s| >= 2 {
      if (IsLower(s[0]) || IsDigit(s[0])) && IsUpper(s[1]) {
        SplitWordsKeepsAscii(s[2..]);
      } else {
        SplitWordsKeepsAscii(s[1..]);
      }
    }
  }

  /** The two cases the source's comments name. */
  lemma SnakeCaseExamples()
    ensures SnakeCase("ABc") == "a_bc"
    ensures SnakeCase("aC") == "a_c"
  {
    assert SplitAcronyms("ABc") == "A_Bc";
    assert SplitWords("A_Bc") == "A_Bc";
    assert ToLowerAscii("A_Bc") == "a_bc";
    assert SplitAcronyms("aC") == "aC";
    assert SplitWords("aC") == "a_C";
    assert ToLowerAscii("a_C") == "a_c";
  }
}
