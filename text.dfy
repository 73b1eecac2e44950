/** The string operations of Python's `str` and `os.path` that the modelled
    code relies on: prefix and substring tests, `split` on one character,
    `os.path.basename`, `os.path.splitext`, ASCII digits and `str.lower`. */
module Text {

  import opened Wrappers

  // ---------------------------------------------------------------------------
  // Digits and their values
  // ---------------------------------------------------------------------------

  predicate IsDigit(c: char) { '0' <= c <= '9' }

  predicate AllDigits(s: string) { forall i :: 0 <= i < |s| ==> IsDigit(s[i]) }

  function DigitValue(c: char): (v: nat)
    requires IsDigit(c)
    ensures v < 10
  {
    c as int - '0' as int
  }

  function Digit(n: nat): (c: char)
    requires n < 10
    ensures IsDigit(c) && DigitValue(c) == n
  {
    ('0' as int + n) as char
  }

  function Pow10(k: nat): (r: nat)
    ensures r >= 1
  {
    if k == 0 then 1 else 10 * Pow10(k - 1)
  }

  /** The value of a string of decimal digits, most significant first ("" is 0). */
  function DigitsValue(s: string): nat
    requires AllDigits(s)
  {
    if s == [] then 0 else DigitsValue(s[..|s| - 1]) * 10 + DigitValue(s[|s| - 1])
  }

  /** The shortest decimal representation of n (no leading zeros; "0" for 0). */
  function NatDigits(n: nat): (r: string)
    ensures |r| >= 1 && AllDigits(r)
    ensures r[0] != '0' || n == 0
  {
    if n < 10 then [Digit(n)] else NatDigits(n / 10) + [Digit(n % 10)]
  }

  lemma {:induction false} NatDigitsValue(n: nat)
    ensures DigitsValue(NatDigits(n)) == n
  {
    if n >= 10 {
      NatDigitsValue(n / 10);
      var s := NatDigits(n);
      assert s[..|s| - 1] == NatDigits(n / 10);
    }
  }

  lemma DigitsValueTwo(s: string)
    requires |s| == 2 && AllDigits(s)
    ensures DigitsValue(s) == 10 * DigitValue(s[0]) + DigitValue(s[1])
  {
    var a := s[..1];
    assert a[..0] == [];
    assert DigitsValue(a) == DigitValue(s[0]);
    assert DigitsValue(s) == DigitsValue(a) * 10 + DigitValue(s[1]);
  }

  lemma DigitsValueThree(s: string)
    requires |s| == 3 && AllDigits(s)
    ensures DigitsValue(s) == 100 * DigitValue(s[0]) + 10 * DigitValue(s[1]) + DigitValue(s[2])
  {
    var a, ab := s[..1], s[..2];
    assert ab[..1] == a && ab[1] == s[1] && a[..0] == [];
    assert DigitsValue(a) == DigitValue(s[0]);
    assert DigitsValue(ab) == DigitsValue(a) * 10 + DigitValue(s[1]);
    assert DigitsValue(s) == DigitsValue(ab) * 10 + DigitValue(s[2]);
  }

  lemma DigitsValueFour(s: string)
    requires |s| == 4 && AllDigits(s)
    ensures DigitsValue(s) == 1000 * DigitValue(s[0]) + 100 * DigitValue(s[1]) + 10 * DigitValue(s[2]) + DigitValue(s[3])
  {
    var abc := s[..3];
    assert abc[0] == s[0] && abc[1] == s[1] && abc[2] == s[2];
    DigitsValueThree(abc);
    assert DigitsValue(s) == DigitsValue(abc) * 10 + DigitValue(s[3]);
  }

  function Zeros(k: nat): (r: string)
    ensures |r| == k && AllDigits(r)
  {
    if k == 0 then "" else Zeros(k - 1) + "0"
  }

  /** `s` padded on the left with '0' to at least `width` characters. */
  function PadLeft(s: string, width: nat): (r: string)
    ensures |r| >= width && |r| >= |s|
    ensures AllDigits(s) ==> AllDigits(r)
  {
    if |s| < width then Zeros(width - |s|) + s else s
  }

  lemma {:induction false} ZerosValue(k: nat)
    ensures DigitsValue(Zeros(k)) == 0
  {
    if k > 0 {
      ZerosValue(k - 1);
      assert Zeros(k)[..k - 1] == Zeros(k - 1);
    }
  }

  /** Concatenating digit strings shifts the left part by the length of the right one. */
  lemma {:induction false} DigitsValueAppend(a: string, b: string)
    requires AllDigits(a) && AllDigits(b)
    ensures AllDigits(a + b)
    ensures DigitsValue(a + b) == DigitsValue(a) * Pow10(|b|) + DigitsValue(b)
  {
    assert AllDigits(a + b) by {
      forall i | 0 <= i < |a + b| ensures IsDigit((a + b)[i]) {
        if i < |a| { assert (a + b)[i] == a[i]; } else { assert (a + b)[i] == b[i - |a|]; }
      }
    }
    if b == [] {
      assert a + b == a;
    } else {
      var b' := b[..|b| - 1];
      var c := b[|b| - 1];
      assert AllDigits(b');
      DigitsValueAppend(a, b');
      assert (a + b)[..|a + b| - 1] == a + b';
      assert (a + b)[|a + b| - 1] == c;
      assert DigitsValue(a + b) == DigitsValue(a + b') * 10 + DigitValue(c);
      assert Pow10(|b|) == Pow10(|b'|) * 10;
      assert DigitsValue(b) == DigitsValue(b') * 10 + DigitValue(c);
      ShiftStep(DigitsValue(a), Pow10(|b'|), DigitsValue(b'), DigitValue(c));
    }
  }

  lemma ShiftStep(x: nat, p: nat, y: nat, d: nat)
    ensures (x * p + y) * 10 + d == x * (p * 10) + (y * 10 + d)
  {
  }

  /** Leading zeros do not change the value of a digit string. */
  lemma {:induction false} PadLeftValue(s: string, width: nat)
    requires AllDigits(s)
    ensures DigitsValue(PadLeft(s, width)) == DigitsValue(s)
  {
    if |s| < width {
      var z := Zeros(width - |s|);
      ZerosValue(width - |s|);
      DigitsValueAppend(z, s);
      assert DigitsValue(z + s) == 0 * Pow10(|s|) + DigitsValue(s);
    }
  }

  // ---------------------------------------------------------------------------
  // Prefixes and substrings
  // ---------------------------------------------------------------------------

  /** Python's `s.startswith(p)`. */
  predicate StartsWith(s: string, p: string) { |p| <= |s| && s[..|p|] == p }

  /** Python's `h in s` for two strings: `h` occurs somewhere in `s`. */
  predicate Contains(s: string, h: string)
    decreases |s|
  {
    StartsWith(s, h) || (|s| > 0 && Contains(s[1..], h))
  }

  lemma {:induction false} ContainsInfix(a: string, h: string, b: string)
    ensures Contains(a + h + b, h)
    decreases |a|
  {
    if a == [] {
      assert (a + h + b)[..|h|] == h;
    } else {
      assert (a + h + b)[1..] == a[1..] + h + b;
      ContainsInfix(a[1..], h, b);
    }
  }

  /** Every character of an occurring substring occurs in the string. */
  lemma {:induction false} ContainsHasChars(s: string, h: string, j: nat)
    requires Contains(s, h) && j < |h|
    ensures h[j] in s
    decreases |s|
  {
    if StartsWith(s, h) {
      assert s[j] == h[j];
    } else {
      ContainsHasChars(s[1..], h, j);
      var k :| 0 <= k < |s[1..]| && s[1..][k] == h[j];
      assert s[k + 1] == h[j];
    }
  }

  /** Text in front keeps an occurrence. */
  lemma {:induction false} ContainsAfter(a: string, s: string, h: string)
    requires Contains(s, h)
    ensures Contains(a + s, h)
    decreases |a|
  {
    if a == [] {
      assert a + s == s;
    } else {
      assert (a + s)[1..] == a[1..] + s;
      ContainsAfter(a[1..], s, h);
    }
  }

  /** A join holds each of its pieces. */
  lemma {:induction false} JoinContainsParts(parts: seq<string>, c: char, k: nat)
    requires |parts| >= 1 && k < |parts|
    ensures Contains(Join(parts, c), parts[k])
    decreases |parts|
  {
    if |parts| == 1 {
      ContainsInfix("", parts[0], "");
      assert "" + parts[0] + "" == parts[0];
    } else if k == 0 {
      var rest := [c] + Join(parts[1..], c);
      ContainsInfix("", parts[0], rest);
      assert "" + parts[0] + rest == Join(parts, c);
    } else {
      JoinContainsParts(parts[1..], c, k - 1);
      ContainsAfter(parts[0] + [c], Join(parts[1..], c), parts[k]);
    }
  }

  // ---------------------------------------------------------------------------
  // Searching for one character
  // ---------------------------------------------------------------------------

  /** Index of the first `c` in `s`, or `|s|` when there is none. */
  function IndexOf(s: string, c: char): (i: nat)
    ensures i <= |s|
    ensures i < |s| ==> s[i] == c
    ensures forall j :: 0 <= j < i ==> s[j] != c
  {
    if s == [] then 0 else if s[0] == c then 0 else 1 + IndexOf(s[1..], c)
  }

  /** Index of the last `c` in `s` (Python's `s.rfind(c)`, with None for -1). */
  function LastIndexOf(s: string, c: char): (r: Option<nat>)
    ensures r.Some? ==> r.value < |s| && s[r.value] == c
    ensures r.Some? ==> forall j :: r.value < j < |s| ==> s[j] != c
    ensures r.None? ==> c !in s
  {
    if s == [] then None
    else if s[|s| - 1] == c then Some(|s| - 1)
    else LastIndexOf(s[..|s| - 1], c)
  }

  // ---------------------------------------------------------------------------
  // str.split with a one-character separator, and its inverse
  // ---------------------------------------------------------------------------

  /** Python's `s.split(c)`: the pieces between the occurrences of `c`. */
  function Split(s: string, c: char): (r: seq<string>)
    ensures |r| >= 1
    ensures forall k :: 0 <= k < |r| ==> c !in r[k]
    decreases |s|
  {
    var i := IndexOf(s, c);
    if i == |s| then [s] else [s[..i]] + Split(s[i + 1..], c)
  }

  /** Python's `c.join(parts)` for a non-empty list. */
  function Join(parts: seq<string>, c: char): string
    requires |parts| >= 1
  {
    if |parts| == 1 then parts[0] else parts[0] + [c] + Join(parts[1..], c)
  }

  lemma JoinThree(a: string, b: string, c: string, sep: char)
    ensures Join([a, b, c], sep) == a + [sep] + b + [sep] + c
  {
    assert [a, b, c][1..] == [b, c];
    assert [b, c][1..] == [c];
    assert Join([b, c], sep) == b + [sep] + c;
    assert Join([a, b, c], sep) == a + [sep] + (b + [sep] + c);
  }

  /** Splitting a join of separator-free pieces gives the pieces back. */
  lemma {:induction false} SplitJoin(parts: seq<string>, c: char)
    requires |parts| >= 1
    requires forall k :: 0 <= k < |parts| ==> c !in parts[k]
    ensures Split(Join(parts, c), c) == parts
  {
    if |parts| == 1 {
      SplitNone(parts[0], c);
    } else {
      var rest := Join(parts[1..], c);
      assert Join(parts, c) == parts[0] + [c] + rest;
      SplitCons(parts[0], c, rest);
      SplitJoin(parts[1..], c);
      assert parts == [parts[0]] + parts[1..];
    }
  }

  /** Two separator-free pieces joined by the separator split back apart. */
  lemma SplitTwo(a: string, b: string, sep: char)
    requires sep !in a && sep !in b
    ensures Split(a + [sep] + b, sep) == [a, b]
  {
    SplitNone(b, sep);
    SplitCons(a, sep, b);
  }

  /** Three separator-free pieces joined by the separator split back apart. */
  lemma SplitThree(a: string, b: string, c: string, sep: char)
    requires sep !in a && sep !in b && sep !in c
    ensures Split(a + [sep] + b + [sep] + c, sep) == [a, b, c]
  {
    var bc := b + [sep] + c;
    JoinRegroup(a, b, c, sep);
    SplitTwo(b, c, sep);
    SplitPrepend(a, bc, [b, c], sep);
    assert [a] + [b, c] == [a, b, c];
  }

  /** The same three pieces and two separators, grouped from the right. */
  lemma JoinRegroup(a: string, b: string, c: string, sep: char)
    ensures a + [sep] + b + [sep] + c == a + [sep] + (b + [sep] + c)
  {
  }

  lemma SplitPrepend(a: string, rest: string, pieces: seq<string>, sep: char)
    requires sep !in a && Split(rest, sep) == pieces
    ensures Split(a + [sep] + rest, sep) == [a] + pieces
  {
    SplitCons(a, sep, rest);
  }

  /** A string without the separator is one piece. */
  lemma SplitNone(s: string, c: char)
    requires c !in s
    ensures Split(s, c) == [s]
  {
    assert IndexOf(s, c) == |s|;
  }

  /** Joining the pieces of a split gives the string back. */
  lemma {:induction false} JoinSplit(s: string, c: char)
    ensures Join(Split(s, c), c) == s
    decreases |s|
  {
    var i := IndexOf(s, c);
    var parts := Split(s, c);
    if i < |s| {
      var rest := s[i + 1..];
      assert parts == [s[..i]] + Split(rest, c);
      assert parts[1..] == Split(rest, c);
      JoinSplit(rest, c);
      assert Join(parts, c) == s[..i] + [c] + rest;
      assert s == s[..i] + [c] + rest;
    } else {
      assert parts == [s];
    }
  }

  /** There is one more piece than there are separators. */
  lemma {:induction false} SplitCount(s: string, c: char)
    ensures |Split(s, c)| == multiset(s)[c] + 1
    decreases |s|
  {
    var i := IndexOf(s, c);
    if i == |s| {
      assert c !in s;
    } else {
      SplitCount(s[i + 1..], c);
      assert s == s[..i] + [c] + s[i + 1..];
      assert c !in s[..i];
      assert multiset(s) == multiset(s[..i]) + multiset([c]) + multiset(s[i + 1..]);
    }
  }

  /** Splitting `a + [c] + b` where `a` has no `c` gives `a` first. */
  lemma SplitCons(a: string, c: char, b: string)
    requires c !in a
    ensures Split(a + [c] + b, c) == [a] + Split(b, c)
  {
    var s := a + [c] + b;
    assert s[|a|] == c;
    forall j | 0 <= j < |a| ensures s[j] != c { assert s[j] == a[j]; }
    assert IndexOf(s, c) == |a|;
    assert s[..|a|] == a;
    assert s[|a| + 1..] == b;
  }

  // ---------------------------------------------------------------------------
  // os.path.basename and os.path.splitext (POSIX flavour)
  // ---------------------------------------------------------------------------

  /** `os.path.basename(p)`: everything after the last '/'. */
  function Basename(p: string): (r: string)
    ensures '/' !in r
    ensures |r| <= |p| && r == p[|p| - |r|..]
    ensures |r| == |p| || p[|p| - |r| - 1] == '/'
  {
    match LastIndexOf(p, '/')
    case None => p
    case Some(i) => p[i + 1..]
  }

  lemma BasenameOfJoin(dir: string, name: string)
    requires '/' !in name
    ensures Basename(dir + "/" + name) == name
  {
    var p := dir + "/" + name;
    assert p[|dir|] == '/';
    forall j | |dir| < j < |p| ensures p[j] != '/' { assert p[j] == name[j - |dir| - 1]; }
    assert LastIndexOf(p, '/') == Some(|dir|);
    assert p[|dir| + 1..] == name;
  }

  /** `os.path.splitext(p)`: the root and the extension, which starts at the
      last '.' after the last '/' unless only dots precede it in that part. */
  function Splitext(p: string): (r: (string, string))
    ensures r.0 + r.1 == p
  {
    var start := match LastIndexOf(p, '/') case None => 0 case Some(i) => i + 1;
    match LastIndexOf(p, '.')
    case None => (p, "")
    case Some(dot) =>
      if start <= dot && exists j :: start <= j < dot && p[j] != '.'
      then (p[..dot], p[dot..])
      else (p, "")
  }

  lemma SplitextNoDot(p: string)
    requires '.' !in p
    ensures Splitext(p) == (p, "")
  {
  }

  /** A stem holding no '/' and no '.', followed by "." and a dot-free
      extension, is split back into the stem and "." + extension. */
  lemma SplitextOfJoin(stem: string, ext: string)
    requires '/' !in stem && '.' !in stem && |stem| >= 1
    requires '/' !in ext && '.' !in ext
    ensures Splitext(stem + "." + ext) == (stem, "." + ext)
  {
    var p := stem + "." + ext;
    forall j | 0 <= j < |p| ensures p[j] != '/' {
      if j < |stem| { assert p[j] == stem[j]; } else if j > |stem| { assert p[j] == ext[j - |stem| - 1]; }
    }
    assert LastIndexOf(p, '/') == None;
    assert p[|stem|] == '.';
    forall j | |stem| < j < |p| ensures p[j] != '.' { assert p[j] == ext[j - |stem| - 1]; }
    assert LastIndexOf(p, '.') == Some(|stem|);
    assert p[0] == stem[0] && p[0] != '.';
    assert p[..|stem|] == stem;
    assert p[|stem|..] == "." + ext;
  }

  // ---------------------------------------------------------------------------
  // str.lower on ASCII letters
  // ---------------------------------------------------------------------------

  function LowerChar(c: char): char
  {
    if 'A' <= c <= 'Z' then (c as int + 32) as char else c
  }

  function Lower(s: string): (r: string)
    ensures |r| == |s| && forall i :: 0 <= i < |s| ==> r[i] == LowerChar(s[i])
  {
    seq(|s|, i requires 0 <= i < |s| => LowerChar(s[i]))
  }

  /** A string that holds an upper-case ASCII letter is not the lower-casing of anything. */
  lemma LowerHasNoUpper(s: string, i: nat)
    requires i < |Lower(s)|
    ensures !('A' <= Lower(s)[i] <= 'Z')
  {
  }
}
