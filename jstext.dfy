/** The two JavaScript string operations the form uses: `split` on one
    character (PurchaseForm.tsx:78) and the relational operator `>` on
    strings (line 59), which compares UTF-16 code units. `FirstIndex`,
    `Join` and `LastIndexOf` are helpers for defining and proving them;
    `LastIndexOf` also fixes where the address pattern at line 81 is split. */
module JsText {
  import Sequences

  /** The index of the first `c` in `s`, or `|s|` when `s` has none. */
  function FirstIndex(s: string, c: char): (i: nat)
    ensures i <= |s|
    ensures i < |s| ==> s[i] == c
    ensures forall j :: 0 <= j < i ==> s[j] != c
  {
    if s == [] then 0
    else if s[0] == c then 0
    else 1 + FirstIndex(s[1..], c)
  }

  /** `s.lastIndexOf(c)`: the index of the last `c` in `s`, or -1. */
  function LastIndexOf(s: string, c: char): (i: int)
    ensures -1 <= i < |s|
    ensures 0 <= i ==> s[i] == c
    ensures forall j :: i < j < |s| ==> s[j] != c
  {
    if s == [] then -1
    else if s[|s| - 1] == c then |s| - 1
    else LastIndexOf(s[..|s| - 1], c)
  }

  /** `s.split(sep)`: the pieces between separators; an empty string gives `[""]`. */
  function Split(s: string, sep: char): (parts: seq<string>)
    ensures |parts| >= 1
    ensures forall t :: t in parts ==> sep !in t
    decreases |s|
  {
    var i := FirstIndex(s, sep);
    if i == |s| then [s] else [s[..i]] + Split(s[i + 1..], sep)
  }

  /** `parts.join(sep)`. */
  function Join(parts: seq<string>, sep: char): string
  {
    if parts == [] then ""
    else if |parts| == 1 then parts[0]
    else parts[0] + [sep] + Join(parts[1..], sep)
  }

  /** Splitting undoes joining when no piece holds the separator. */
  lemma {:induction false} SplitJoin(parts: seq<string>, sep: char)
    requires |parts| >= 1
    requires forall t :: t in parts ==> sep !in t
    ensures Split(Join(parts, sep), sep) == parts
  {
    if |parts| > 1 {
      var s := Join(parts, sep);
      var p := parts[0];
      assert s == p + [sep] + Join(parts[1..], sep);
      assert s[|p|] == sep;
      assert p in parts;
      assert forall j :: 0 <= j < |p| ==> s[j] == p[j] && p[j] != sep;
      assert FirstIndex(s, sep) == |p|;
      assert s[..|p|] == p;
      assert s[|p| + 1..] == Join(parts[1..], sep);
      SplitJoin(parts[1..], sep);
      assert Split(s, sep) == [p] + Split(Join(parts[1..], sep), sep);
      assert parts == [p] + parts[1..];
    } else {
      assert parts[0] in parts;
      assert parts == [parts[0]];
    }
  }

  /** Joining the pieces of a split gives back the original string. */
  lemma {:induction false} JoinSplit(s: string, sep: char)
    ensures Join(Split(s, sep), sep) == s
    decreases |s|
  {
    var i := FirstIndex(s, sep);
    if i < |s| {
      var rest := Split(s[i + 1..], sep);
      JoinSplit(s[i + 1..], sep);
      assert Split(s, sep) == [s[..i]] + rest;
      assert s == s[..i] + [sep] + s[i + 1..];
    }
  }

  /** The conditions that pin down `FirstIndex`. */
  lemma FirstIndexIs(s: string, c: char, t: nat)
    requires t <= |s| && (t < |s| ==> s[t] == c)
    requires forall j :: 0 <= j < t ==> s[j] != c
    ensures FirstIndex(s, c) == t
  {
  }

  /** The first `c` of `a + b` is the first of `a`, or else `|a|` plus the first of `b`. */
  lemma FirstIndexConcat(a: string, b: string, c: char)
    ensures FirstIndex(a + b, c) == if FirstIndex(a, c) < |a| then FirstIndex(a, c) else |a| + FirstIndex(b, c)
  {
    var s := a + b;
    var i := FirstIndex(a, c);
    if i < |a| {
      assert s[i] == a[i];
      assert forall j :: 0 <= j < i ==> s[j] == a[j];
      FirstIndexIs(s, c, i);
    } else {
      var n := FirstIndex(b, c);
      assert forall j :: 0 <= j < |a| ==> s[j] == a[j];
      assert forall j :: |a| <= j < |s| ==> s[j] == b[j - |a|];
      FirstIndexIs(s, c, |a| + n);
    }
  }

  /** Splitting `a,b` when `a` holds no separator. */
  lemma SplitConcatWhole(a: string, b: string, sep: char)
    requires FirstIndex(a, sep) == |a|
    ensures Split(a + [sep] + b, sep) == [a] + Split(b, sep)
  {
    var s := a + ([sep] + b);
    assert a + [sep] + b == s;
    FirstIndexConcat(a, [sep] + b, sep);
    assert s[..|a|] == a && s[|a| + 1..] == b;
  }

  /** Splitting `a,b` when `a` holds a separator at `i`: the first piece is `a`'s. */
  lemma SplitConcatStep(a: string, b: string, sep: char, i: nat)
    requires i == FirstIndex(a, sep) < |a|
    ensures Split(a + [sep] + b, sep) == [a[..i]] + Split(a[i + 1..] + [sep] + b, sep)
  {
    var s := a + ([sep] + b);
    assert a + [sep] + b == s;
    FirstIndexConcat(a, [sep] + b, sep);
    assert s[..i] == a[..i];
    assert s[i + 1..] == a[i + 1..] + [sep] + b;
  }

  lemma {:induction false} SplitConcat(a: string, b: string, sep: char)
    ensures Split(a + [sep] + b, sep) == Split(a, sep) + Split(b, sep)
    decreases |a|
  {
    var i := FirstIndex(a, sep);
    if i == |a| {
      SplitConcatWhole(a, b, sep);
    } else {
      var rest := a[i + 1..];
      SplitConcatStep(a, b, sep, i);
      SplitConcat(rest, b, sep);
      assert Split(a, sep) == [a[..i]] + Split(rest, sep);
      Sequences.ConsAppend(a[..i], Split(rest, sep), Split(b, sep));
    }
  }

  /** The UTF-16 code units of one character: one unit, or a surrogate pair. */
  function CodeUnits(c: char): (u: seq<int>)
    ensures 1 <= |u| <= 2
    ensures |u| == 1 <==> (c as int) < 0x1_0000
    ensures |u| == 1 ==> u[0] == c as int && !(0xD800 <= u[0] <= 0xDFFF)
    ensures |u| == 2 ==> 0xD800 <= u[0] <= 0xDBFF && 0xDC00 <= u[1] <= 0xDFFF
    ensures |u| == 2 ==> c as int == 0x1_0000 + (u[0] - 0xD800) * 0x400 + (u[1] - 0xDC00)
  {
    var v := c as int;
    if v < 0x1_0000 then [v]
    else [0xD800 + (v - 0x1_0000) / 0x400, 0xDC00 + (v - 0x1_0000) % 0x400]
  }

  /** The UTF-16 code units of a string, which is what JavaScript compares. */
  function Utf16(s: string): (u: seq<int>)
    ensures |u| >= |s|
    ensures s == [] <==> u == []
  {
    if s == [] then [] else CodeUnits(s[0]) + Utf16(s[1..])
  }

  /** The first code unit tells whether a character takes one unit or two. */
  lemma CodeUnitsLength(c: char, d: char)
    requires CodeUnits(c)[0] == CodeUnits(d)[0]
    ensures |CodeUnits(c)| == |CodeUnits(d)|
  {
  }

  /** Different characters have different code units. */
  lemma CodeUnitsInjective(c: char, d: char)
    requires CodeUnits(c) == CodeUnits(d)
    ensures c == d
  {
    assert c as int == d as int;
  }

  /** Equal encodings come from equal strings. */
  lemma {:induction false} Utf16Decodes(s: string, t: string)
    requires Utf16(s) == Utf16(t)
    ensures s == t
    decreases |s|
  {
    if s != [] {
      var u, v := CodeUnits(s[0]), CodeUnits(t[0]);
      var w := Utf16(s);
      assert w == u + Utf16(s[1..]) && w == v + Utf16(t[1..]);
      assert u[0] == w[0] == v[0];
      CodeUnitsLength(s[0], t[0]);
      assert u == w[..|u|] == v;
      CodeUnitsInjective(s[0], t[0]);
      assert Utf16(s[1..]) == w[|u|..] == Utf16(t[1..]);
      Utf16Decodes(s[1..], t[1..]);
      assert s == [s[0]] + s[1..] && t == [t[0]] + t[1..];
    }
  }

  /** Different strings have different encodings, so `>` tells them apart. */
  lemma Utf16Injective(s: string, t: string)
    requires s != t
    ensures Utf16(s) != Utf16(t)
  {
    if Utf16(s) == Utf16(t) {
      Utf16Decodes(s, t);
    }
  }

  /** Lexicographic order on code-unit sequences; a proper prefix comes first. */
  predicate UnitsLess(x: seq<int>, y: seq<int>)
    decreases |x|
  {
    if x == [] then y != []
    else if y == [] then false
    else if x[0] != y[0] then x[0] < y[0]
    else UnitsLess(x[1..], y[1..])
  }

  /** JavaScript's `a > b` on two strings. */
  predicate StringGreater(a: string, b: string)
  {
    UnitsLess(Utf16(b), Utf16(a))
  }

  lemma {:induction false} UnitsLessIrreflexive(x: seq<int>)
    ensures !UnitsLess(x, x)
  {
    if x != [] {
      UnitsLessIrreflexive(x[1..]);
    }
  }

  lemma {:induction false} UnitsLessAsymmetric(x: seq<int>, y: seq<int>)
    ensures UnitsLess(x, y) ==> !UnitsLess(y, x)
    decreases |x|
  {
    if x != [] && y != [] && x[0] == y[0] {
      UnitsLessAsymmetric(x[1..], y[1..]);
    }
  }

  lemma {:induction false} UnitsLessTransitive(x: seq<int>, y: seq<int>, z: seq<int>)
    ensures UnitsLess(x, y) && UnitsLess(y, z) ==> UnitsLess(x, z)
    decreases |x|
  {
    if x != [] && y != [] && z != [] && x[0] == y[0] == z[0] {
      UnitsLessTransitive(x[1..], y[1..], z[1..]);
    }
  }

  /** Two different code-unit sequences are ordered one way or the other. */
  lemma {:induction false} UnitsLessTotal(x: seq<int>, y: seq<int>)
    ensures x == y || UnitsLess(x, y) || UnitsLess(y, x)
    decreases |x|
  {
    if x != [] && y != [] && x[0] == y[0] {
      UnitsLessTotal(x[1..], y[1..]);
      if x[1..] == y[1..] {
        assert x == [x[0]] + x[1..] && y == [y[0]] + y[1..];
      }
    }
  }

  /** Code-unit order is not code-point order: U+E000 is a single unit above
      every surrogate, so it compares greater than U+10000. */
  lemma CodeUnitOrderDiffersFromCodePoints()
    ensures StringGreater("\U{E000}", "\U{10000}")
    ensures ("\U{E000}"[0] as int) < ("\U{10000}"[0] as int)
  {
    assert Utf16("\U{10000}") == [0xD800, 0xDC00];
    assert Utf16("\U{E000}") == [0xE000];
  }
}
