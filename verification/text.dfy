/** The pieces of Go's `strings` package that the core relies on:
    `TrimSpace`, `HasPrefix`, `Split` with a one-character separator and
    `Fields`. Go strings are UTF-8 byte strings; here a string is the
    sequence of its code points, which is what `Fields`, `TrimSpace` and a
    one-byte-separator `Split` see on valid UTF-8. */
module Text {

  /** Go's `unicode.IsSpace`: the Latin-1 spaces and the rest of the Unicode
      White_Space property. */
  predicate IsSpace(c: char) {
    var n := c as int;
    || 0x09 <= n <= 0x0D || n == 0x20 || n == 0x85 || n == 0xA0
    || n == 0x1680 || 0x2000 <= n <= 0x200A || n == 0x2028 || n == 0x2029
    || n == 0x202F || n == 0x205F || n == 0x3000
  }

  /** Every character of `s` is white space (vacuously true of ""). */
  predicate IsBlank(s: string) {
    forall i :: 0 <= i < |s| ==> IsSpace(s[i])
  }

  /** No character of `s` is white space. */
  predicate NoSpace(s: string) {
    forall i :: 0 <= i < |s| ==> !IsSpace(s[i])
  }

  predicate HasPrefix(s: string, prefix: string) {
    |prefix| <= |s| && s[..|prefix|] == prefix
  }

  /** Drops the leading white space of `s` (Go: `strings.TrimLeftFunc(s, unicode.IsSpace)`). */
  function TrimLeftSpace(s: string): (r: string)
    ensures |r| <= |s|
    ensures |r| == 0 || !IsSpace(r[0])
  {
    if |s| == 0 || !IsSpace(s[0]) then s else TrimLeftSpace(s[1..])
  }

  /** What TrimLeftSpace drops is a blank prefix; what it keeps is the rest. */
  lemma {:induction false} TrimLeftSpaceSuffix(s: string)
    ensures var r := TrimLeftSpace(s);
            r == s[|s| - |r|..] && IsBlank(s[..|s| - |r|])
    decreases |s|
  {
    if |s| > 0 && IsSpace(s[0]) {
      TrimLeftSpaceSuffix(s[1..]);
      var d := |s| - |TrimLeftSpace(s)|;
      assert s[1..][d - 1..] == s[d..];
      assert forall i :: 1 <= i < d ==> s[..d][i] == s[1..][..d - 1][i - 1];
    } else {
      assert s[0..] == s;
    }
  }

  /** Drops the trailing white space of `s`. */
  function TrimRightSpace(s: string): (r: string)
    ensures |r| <= |s|
    ensures |r| == 0 || !IsSpace(r[|r| - 1])
  {
    if |s| == 0 || !IsSpace(s[|s| - 1]) then s else TrimRightSpace(s[..|s| - 1])
  }

  /** What TrimRightSpace drops is a blank suffix; what it keeps is the rest. */
  lemma {:induction false} TrimRightSpacePrefix(s: string)
    ensures var r := TrimRightSpace(s);
            r == s[..|r|] && IsBlank(s[|r|..])
    decreases |s|
  {
    if |s| > 0 && IsSpace(s[|s| - 1]) {
      var init := s[..|s| - 1];
      TrimRightSpacePrefix(init);
      var k := |TrimRightSpace(s)|;
      assert init[..k] == s[..k];
      assert forall j :: 0 <= j < |s| - 1 - k ==> s[k..][j] == init[k..][j];
    } else {
      assert s[..|s|] == s;
    }
  }

  /** Go's `strings.TrimSpace`. */
  function TrimSpace(s: string): string {
    TrimRightSpace(TrimLeftSpace(s))
  }

  /** `len(strings.TrimSpace(line)) == 0` exactly when the line is blank. */
  lemma {:induction false} TrimSpaceEmptyIffBlank(s: string)
    ensures |TrimSpace(s)| == 0 <==> IsBlank(s)
  {
    var l := TrimLeftSpace(s);
    TrimLeftSpaceSuffix(s);
    TrimRightSpacePrefix(l);
    if |TrimSpace(s)| == 0 {
      assert IsBlank(l[0..]);
      assert l[0..] == l;
      assert |l| == 0;
      assert s[..|s|] == s;
    } else {
      var t := TrimSpace(s);
      assert !IsSpace(t[|t| - 1]) && t[|t| - 1] == l[|t| - 1];
      assert l[|t| - 1] == s[|s| - |l| + |t| - 1];
    }
  }

  /** Number of occurrences of `c` in `s`. */
  function Count(s: string, c: char): nat {
    if |s| == 0 then 0 else (if s[0] == c then 1 else 0) + Count(s[1..], c)
  }

  /** Go's `strings.Join(parts, string(sep))`. */
  function Join(parts: seq<string>, sep: char): string {
    if |parts| == 0 then ""
    else if |parts| == 1 then parts[0]
    else parts[0] + [sep] + Join(parts[1..], sep)
  }

  /** Go's `strings.Split(s, string(sep))`: the pieces of `s` between the
      occurrences of `sep`; always at least one piece ("" splits into [""]). */
  function Split(s: string, sep: char): (parts: seq<string>)
    ensures |parts| == Count(s, sep) + 1
    ensures forall i :: 0 <= i < |parts| ==> sep !in parts[i]
    ensures Join(parts, sep) == s
  {
    if |s| == 0 then [""]
    else
      var rest := Split(s[1..], sep);
      if s[0] == sep then [""] + rest
      else [[s[0]] + rest[0]] + rest[1..]
  }

  /** Splitting a separator-free word followed by the separator peels it off. */
  lemma {:induction false} SplitWordThenSep(w: string, sep: char, t: string)
    requires sep !in w
    ensures Split(w + [sep] + t, sep) == [w] + Split(t, sep)
    decreases |w|
  {
    if |w| == 0 {
      assert w + [sep] + t == [sep] + t;
      assert ([sep] + t)[1..] == t;
    } else {
      assert (w + [sep] + t)[1..] == w[1..] + [sep] + t;
      SplitWordThenSep(w[1..], sep, t);
      assert [w[0]] + w[1..] == w;
    }
  }

  lemma {:induction false} SplitWord(w: string, sep: char)
    requires sep !in w
    ensures Split(w, sep) == [w]
    decreases |w|
  {
    if |w| > 0 {
      SplitWord(w[1..], sep);
      assert [w[0]] + w[1..] == w;
    }
  }

  /** Split undoes Join when no piece contains the separator. */
  lemma {:induction false} SplitJoin(parts: seq<string>, sep: char)
    requires |parts| >= 1
    requires forall i :: 0 <= i < |parts| ==> sep !in parts[i]
    ensures Split(Join(parts, sep), sep) == parts
    decreases |parts|
  {
    if |parts| == 1 {
      SplitWord(parts[0], sep);
    } else {
      SplitJoin(parts[1..], sep);
      SplitWordThenSep(parts[0], sep, Join(parts[1..], sep));
      assert [parts[0]] + parts[1..] == parts;
    }
  }

  /** Length of the longest space-free prefix of `s`. */
  function WordLength(s: string): (n: nat)
    ensures n <= |s|
    ensures n == |s| || IsSpace(s[n])
    ensures |s| > 0 && !IsSpace(s[0]) ==> n >= 1
  {
    if |s| == 0 || IsSpace(s[0]) then 0 else WordLength(s[1..]) + 1
  }

  /** The prefix WordLength measures has no white space. */
  lemma {:induction false} WordLengthNoSpace(s: string)
    ensures NoSpace(s[..WordLength(s)])
    decreases |s|
  {
    if |s| > 0 && !IsSpace(s[0]) {
      WordLengthNoSpace(s[1..]);
      var m := WordLength(s[1..]);
      assert s[..m + 1] == [s[0]] + s[1..][..m];
    }
  }

  /** Go's `strings.Fields`: the maximal runs of non-space characters, in order. */
  function Fields(s: string): seq<string>
    decreases |s|
  {
    var t := TrimLeftSpace(s);
    if |t| == 0 then []
    else
      var n := WordLength(t);
      [t[..n]] + Fields(t[n..])
  }

  /** Every field is a non-empty run of non-space characters. */
  lemma {:induction false} FieldsAreWords(s: string)
    ensures forall i :: 0 <= i < |Fields(s)| ==> |Fields(s)[i]| > 0 && NoSpace(Fields(s)[i])
    decreases |s|
  {
    var t := TrimLeftSpace(s);
    if |t| > 0 {
      WordLengthNoSpace(t);
      FieldsAreWords(t[WordLength(t)..]);
    }
  }

  /** A line has no fields exactly when it is blank. */
  lemma {:induction false} FieldsEmptyIffBlank(s: string)
    ensures |Fields(s)| == 0 <==> IsBlank(s)
  {
    var t := TrimLeftSpace(s);
    TrimLeftSpaceSuffix(s);
    if |t| == 0 {
      assert s[..|s|] == s;
    } else {
      assert s[|s| - |t|] == t[0];
    }
  }

  lemma {:induction false} TrimLeftSpaceOfBlankPrefix(sp: string, t: string)
    requires IsBlank(sp)
    requires |t| == 0 || !IsSpace(t[0])
    ensures TrimLeftSpace(sp + t) == t
    decreases |sp|
  {
    if |sp| > 0 {
      assert (sp + t)[1..] == sp[1..] + t;
      TrimLeftSpaceOfBlankPrefix(sp[1..], t);
    } else {
      assert sp + t == t;
    }
  }

  lemma {:induction false} WordLengthOfWord(w: string, rest: string)
    requires NoSpace(w)
    requires |rest| == 0 || IsSpace(rest[0])
    ensures WordLength(w + rest) == |w|
    decreases |w|
  {
    if |w| > 0 {
      assert (w + rest)[1..] == w[1..] + rest;
      WordLengthOfWord(w[1..], rest);
    } else {
      assert w + rest == rest;
    }
  }

  /** Fields peels off one word preceded by white space and followed by white
      space or the end of the string. */
  lemma {:induction false} FieldsCons(sp: string, w: string, rest: string)
    requires IsBlank(sp)
    requires |w| > 0 && NoSpace(w)
    requires |rest| == 0 || IsSpace(rest[0])
    ensures Fields(sp + w + rest) == [w] + Fields(rest)
  {
    assert sp + w + rest == sp + (w + rest);
    TrimLeftSpaceOfBlankPrefix(sp, w + rest);
    WordLengthOfWord(w, rest);
    assert (w + rest)[..|w|] == w;
    assert (w + rest)[|w|..] == rest;
  }

  /** FieldsCons for a string already known to have that shape. */
  lemma {:induction false} FieldsConsAt(whole: string, sp: string, w: string, rest: string)
    requires IsBlank(sp)
    requires |w| > 0 && NoSpace(w)
    requires |rest| == 0 || IsSpace(rest[0])
    requires whole == sp + w + rest
    ensures Fields(whole) == [w] + Fields(rest)
  {
    FieldsCons(sp, w, rest);
  }

  /** A leading space does not change the fields. */
  lemma {:induction false} FieldsSpaceCons(rest: string)
    ensures Fields([' '] + rest) == Fields(rest)
  {
    assert ([' '] + rest)[1..] == rest;
    assert TrimLeftSpace([' '] + rest) == TrimLeftSpace(rest);
  }

  /** Fields undoes joining non-empty space-free words with single spaces. */
  lemma {:induction false} FieldsJoin(words: seq<string>)
    requires forall i :: 0 <= i < |words| ==> |words[i]| > 0 && NoSpace(words[i])
    ensures Fields(Join(words, ' ')) == words
    decreases |words|
  {
    if |words| == 0 {
      assert Fields("") == [];
    } else if |words| == 1 {
      FieldsSingle(words[0]);
    } else {
      FieldsJoin(words[1..]);
      FieldsJoinStep(words);
    }
  }

  lemma {:induction false} FieldsJoinStep(words: seq<string>)
    requires |words| >= 2 && |words[0]| > 0 && NoSpace(words[0])
    requires Fields(Join(words[1..], ' ')) == words[1..]
    ensures Fields(Join(words, ' ')) == words
  {
    var w, tail := words[0], words[1..];
    var rest := Join(tail, ' ');
    var whole := Join(words, ' ');
    JoinCons(words, ' ');
    FieldsSeparated(w, rest, whole);
    assert [w] + tail == words;
  }

  lemma {:induction false} JoinCons(parts: seq<string>, sep: char)
    requires |parts| >= 2
    ensures Join(parts, sep) == parts[0] + [sep] + Join(parts[1..], sep)
  {
  }

  lemma {:induction false} FieldsSeparated(w: string, rest: string, whole: string)
    requires |w| > 0 && NoSpace(w)
    requires whole == w + [' '] + rest
    ensures Fields(whole) == [w] + Fields(rest)
  {
    FieldsWordThenSpace(w, rest);
    FieldsSpaceCons(rest);
  }

  lemma {:induction false} FieldsSingle(w: string)
    requires |w| > 0 && NoSpace(w)
    ensures Fields(w) == [w]
  {
    FieldsCons("", w, "");
    assert "" + w + "" == w;
    assert Fields("") == [];
  }

  lemma {:induction false} FieldsWordThenSpace(w: string, rest: string)
    requires |w| > 0 && NoSpace(w)
    ensures Fields(w + [' '] + rest) == [w] + Fields([' '] + rest)
  {
    var tail := [' '] + rest;
    assert tail[0] == ' ';
    var whole := w + [' '] + rest;
    assert whole == "" + w + tail;
    FieldsCons("", w, tail);
  }

  /** `words` separated by the white-space runs `gaps` (one before each
      word) and followed by `tail`. */
  function Padded(gaps: seq<string>, words: seq<string>, tail: string): string
    requires |gaps| == |words|
  {
    if |words| == 0 then tail else gaps[0] + words[0] + Padded(gaps[1..], words[1..], tail)
  }

  /** Fields recovers the words of any white-space padding of them. */
  lemma {:induction false} FieldsPadded(gaps: seq<string>, words: seq<string>, tail: string)
    requires |gaps| == |words|
    requires forall i :: 0 <= i < |gaps| ==> IsBlank(gaps[i]) && (i > 0 ==> |gaps[i]| > 0)
    requires forall i :: 0 <= i < |words| ==> |words[i]| > 0 && NoSpace(words[i])
    requires IsBlank(tail)
    ensures Fields(Padded(gaps, words, tail)) == words
    decreases |words|
  {
    if |words| == 0 {
      FieldsEmptyIffBlank(tail);
    } else {
      FieldsPadded(gaps[1..], words[1..], tail);
      PaddedStart(gaps[1..], words[1..], tail);
      FieldsPaddedStep(gaps, words, tail);
    }
  }

  lemma {:induction false} FieldsPaddedStep(gaps: seq<string>, words: seq<string>, tail: string)
    requires |gaps| == |words| > 0
    requires IsBlank(gaps[0]) && |words[0]| > 0 && NoSpace(words[0])
    requires var rest := Padded(gaps[1..], words[1..], tail); |rest| == 0 || IsSpace(rest[0])
    requires Fields(Padded(gaps[1..], words[1..], tail)) == words[1..]
    ensures Fields(Padded(gaps, words, tail)) == words
  {
    var rest := Padded(gaps[1..], words[1..], tail);
    var whole := Padded(gaps, words, tail);
    PaddedCons(gaps, words, tail);
    FieldsStepAt(whole, gaps[0], words[0], rest, words[1..]);
    assert [words[0]] + words[1..] == words;
  }

  lemma {:induction false} PaddedCons(gaps: seq<string>, words: seq<string>, tail: string)
    requires |gaps| == |words| > 0
    ensures Padded(gaps, words, tail) == gaps[0] + words[0] + Padded(gaps[1..], words[1..], tail)
  {
  }

  lemma {:induction false} FieldsStepAt(whole: string, sp: string, w: string, rest: string, more: seq<string>)
    requires IsBlank(sp)
    requires |w| > 0 && NoSpace(w)
    requires |rest| == 0 || IsSpace(rest[0])
    requires whole == sp + w + rest
    requires Fields(rest) == more
    ensures Fields(whole) == [w] + more
  {
    FieldsConsAt(whole, sp, w, rest);
  }

  lemma {:induction false} PaddedStart(gaps: seq<string>, words: seq<string>, tail: string)
    requires |gaps| == |words|
    requires forall i :: 0 <= i < |gaps| ==> IsBlank(gaps[i]) && |gaps[i]| > 0
    requires IsBlank(tail)
    ensures var p := Padded(gaps, words, tail); |p| == 0 || IsSpace(p[0])
  {
    if |words| > 0 {
      assert Padded(gaps, words, tail)[0] == gaps[0][0];
    }
  }

  /** Two concatenations with equally long heads are equal exactly when
      the heads and the tails are. */
  lemma {:induction false} ConcatEqual<T>(p: seq<T>, q: seq<T>, x: seq<T>, y: seq<T>)
    requires |p| == |q|
    ensures p + x == q + y <==> p == q && x == y
  {
    if p + x == q + y {
      assert p == (p + x)[..|p|] && q == (q + y)[..|q|];
      assert x == (p + x)[|p|..] && y == (q + y)[|q|..];
    }
  }

  lemma ConcatAssoc<T>(x: seq<T>, y: seq<T>, z: seq<T>)
    ensures x + (y + z) == (x + y) + z
  {
  }
}
