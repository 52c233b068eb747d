// The keystroke masks of the air-fryer entry form: what `handleInputChange` stores for the
// phone number and the cost guess, and what `formatSpidrPin` stores for the Spidr PIN.

module Masks {
  import opened Text

  predicate IsCostChar(c: char) {
    IsDigit(c) || c == '.'
  }

  predicate NotDot(c: char) {
    c != '.'
  }

  /** `s.replace(/[^0-9]/g, "")`, which is also `s.replace(/\D/g, "")`. */
  function DigitsOnly(s: string): (r: string) {
    Filter(s, IsDigit)
  }

  lemma DigitsOnlyDigits(s: string)
    ensures AllDigits(DigitsOnly(s))
  {
    FilterKept(s, IsDigit);
  }

  /** At most one '.' occurs in `s`. */
  predicate AtMostOneDot(s: string) {
    forall i, j :: 0 <= i < j < |s| && s[i] == '.' ==> s[j] != '.'
  }

  // ---------------------------------------------------------------------------
  // Phone number

  /** The phone mask: the digits of the typed value, cut to the first ten. */
  function PhoneMask(value: string): (r: string)
    ensures AllDigits(r)
    ensures |r| == Min(10, |DigitsOnly(value)|)
    ensures r <= DigitsOnly(value)
  {
    DigitsOnlyDigits(value);
    SlicePrefix(DigitsOnly(value), 10);
    Slice(DigitsOnly(value), 0, 10)
  }

  // ---------------------------------------------------------------------------
  // Splitting on '.' (`s.split(".")`) and joining (`parts.join("")`)

  /** `s.split(".")`: the maximal dot-free pieces between the dots, in order; the empty
      string gives `[""]`. */
  function SplitDots(s: string): (parts: seq<string>)
    ensures |parts| >= 1
  {
    if s == [] then [[]]
    else
      var rest := SplitDots(s[1..]);
      if s[0] == '.' then [[]] + rest
      else [[s[0]] + rest[0]] + rest[1..]
  }

  /** `parts.join(".")`, the inverse of SplitDots. */
  function JoinDots(parts: seq<string>): (s: string) {
    if parts == [] then []
    else if |parts| == 1 then parts[0]
    else parts[0] + "." + JoinDots(parts[1..])
  }

  /** `parts.join("")`. */
  function Concat(parts: seq<string>): (s: string) {
    if parts == [] then [] else parts[0] + Concat(parts[1..])
  }

  /** No piece holds a dot. */
  lemma {:induction false} SplitDotsDotFree(s: string)
    ensures forall k :: 0 <= k < |SplitDots(s)| ==> '.' !in SplitDots(s)[k]
  {
    if s != [] {
      SplitDotsDotFree(s[1..]);
      var rest := SplitDots(s[1..]);
      if s[0] != '.' {
        assert '.' !in [s[0]] + rest[0];
      }
    }
  }

  /** There is one piece exactly when there is no dot. */
  lemma SplitDotsSingle(s: string)
    ensures |SplitDots(s)| == 1 <==> IndexOf(s, '.') == |s|
  {
    SplitAtFirstDot(s);
    var i := IndexOf(s, '.');
    if i < |s| {
      assert |SplitDots(s[i + 1..])| >= 1;
    }
  }

  /** Splitting and then joining with "." gives the string back. */
  lemma {:induction false} SplitJoinRoundTrip(s: string)
    ensures JoinDots(SplitDots(s)) == s
  {
    if s != [] {
      var rest := SplitDots(s[1..]);
      SplitJoinRoundTrip(s[1..]);
      if s[0] == '.' {
        assert SplitDots(s) == [[]] + rest;
        assert ([[]] + rest)[1..] == rest;
      } else {
        var parts := [[s[0]] + rest[0]] + rest[1..];
        assert SplitDots(s) == parts;
        if |rest| == 1 {
          assert s == [s[0]] + s[1..];
        } else {
          assert parts[1..] == rest[1..];
          assert JoinDots(rest) == rest[0] + "." + JoinDots(rest[1..]);
          assert s == [s[0]] + s[1..];
        }
      }
    }
  }

  /** Joining the pieces with "" removes the dots and keeps everything else. */
  lemma {:induction false} SplitConcat(s: string)
    ensures Concat(SplitDots(s)) == Filter(s, NotDot)
  {
    if s != [] {
      var rest := SplitDots(s[1..]);
      SplitConcat(s[1..]);
      if s[0] == '.' {
        assert ([[]] + rest)[1..] == rest;
      } else {
        var parts := [[s[0]] + rest[0]] + rest[1..];
        assert parts[1..] == rest[1..];
        assert Concat(rest) == rest[0] + Concat(rest[1..]);
      }
    }
  }

  /** The first piece is everything before the first '.'; the rest is the split of what
      follows that '.'. */
  lemma {:induction false} SplitAtFirstDot(s: string)
    ensures IndexOf(s, '.') == |s| ==> SplitDots(s) == [s]
    ensures IndexOf(s, '.') < |s| ==>
      SplitDots(s) == [s[..IndexOf(s, '.')]] + SplitDots(s[IndexOf(s, '.') + 1..])
  {
    if s != [] && s[0] != '.' {
      var t := s[1..];
      var rest := SplitDots(t);
      SplitAtFirstDot(t);
      var j := IndexOf(t, '.');
      assert IndexOf(s, '.') == j + 1;
      if j == |t| {
        assert s == [s[0]] + t;
      } else {
        assert s[..j + 1] == [s[0]] + t[..j];
        assert s[j + 2..] == t[j + 1..];
        assert rest[1..] == SplitDots(t[j + 1..]);
      }
    }
  }

  // ---------------------------------------------------------------------------
  // Cost guess

  /** The cost mask as the handler computes it: keep digits and dots, split on '.',
      fold the pieces after the first dot together when there are more than two, and,
      when the piece right after the first dot is non-empty, keep only its first two
      characters after the integer part. */
  function CostMask(value: string): (r: string) {
    var filtered := Filter(value, IsCostChar);
    var parts := SplitDots(filtered);
    var joined := if |parts| > 2 then parts[0] + "." + Concat(parts[1..]) else filtered;
    if |parts| > 1 && parts[1] != [] then parts[0] + "." + Slice(parts[1], 0, 2)
    else joined
  }

  /** The cost mask stated without splitting: with `f` the kept characters, no dot leaves
      `f` unchanged; otherwise the integer part is `f` up to its first dot, followed by
      '.' and the Fraction of what follows that dot. */
  function CostMaskReference(value: string): (r: string) {
    var f := Filter(value, IsCostChar);
    var i := IndexOf(f, '.');
    if i == |f| then f else f[..i] + "." + Fraction(f[i + 1..])
  }

  /** The segment of `rest` up to its first dot. */
  function Segment(rest: string): (seg: string) {
    rest[..IndexOf(rest, '.')]
  }

  /** The fraction the cost mask keeps from what follows the first dot: the first two
      characters of the segment up to the next dot when that segment is non-empty, and
      every non-dot character when it is empty. */
  function Fraction(rest: string): (frac: string) {
    if Segment(rest) != [] then Slice(Segment(rest), 0, 2) else Filter(rest, NotDot)
  }

  /** The split-and-join computation agrees with the split-free reference. */
  lemma CostMaskSpec(value: string)
    ensures CostMask(value) == CostMaskReference(value)
  {
    var f := Filter(value, IsCostChar);
    var parts := SplitDots(f);
    var i := IndexOf(f, '.');
    SplitAtFirstDot(f);
    if i < |f| {
      var rest := f[i + 1..];
      var seg := Segment(rest);
      SplitAtFirstDot(rest);
      assert parts[0] == f[..i];
      assert parts[1..] == SplitDots(rest);
      assert parts[1] == seg;
      if seg == [] {
        if |parts| > 2 {
          SplitConcat(rest);
        } else {
          assert |SplitDots(rest)| == 1;
          SplitDotsSingle(rest);
          assert seg == rest;
          IndexOfSpec(f, '.');
          assert f == f[..i] + "." + rest;
        }
      }
    }
  }

  /** A string made of digits and dots has digits before its first dot. */
  lemma IntegerPartDigits(f: string)
    requires forall k :: 0 <= k < |f| ==> IsCostChar(f[k])
    ensures AllDigits(f[..IndexOf(f, '.')])
  {
    var i := IndexOf(f, '.');
    IndexOfSpec(f, '.');
    forall k | 0 <= k < i ensures IsDigit(f[..i][k]) {
      assert f[..i][k] == f[k];
      assert f[..i][k] in f[..i];
    }
  }

  /** The fraction taken from digits and dots is all digits. */
  lemma FractionDigits(rest: string)
    requires forall k :: 0 <= k < |rest| ==> IsCostChar(rest[k])
    ensures AllDigits(Fraction(rest))
  {
    var seg := Segment(rest);
    if seg != [] {
      IntegerPartDigits(rest);
      assert forall k :: 0 <= k < |Fraction(rest)| ==> Fraction(rest)[k] == seg[k];
    } else {
      FilterKept(rest, NotDot);
      var tail := Filter(rest, NotDot);
      forall k | 0 <= k < |tail| ensures IsDigit(tail[k]) {
        assert tail[k] in rest;
      }
    }
  }

  /** Digits, one '.', digits: only cost characters, and one dot, right after the first
      part. */
  lemma DigitsDotDigits(a: string, b: string)
    requires AllDigits(a) && AllDigits(b)
    ensures var r := a + "." + b;
      && (forall k :: 0 <= k < |r| ==> IsCostChar(r[k]))
      && AtMostOneDot(r)
      && IndexOf(r, '.') == |a|
      && r[..|a|] == a
  {
    var r := a + "." + b;
    assert forall k :: 0 <= k < |a| ==> r[k] == a[k];
    assert forall k :: |a| < k < |r| ==> r[k] == b[k - |a| - 1];
    assert r[..|a|] == a;
    assert '.' !in a by {
      assert forall k :: 0 <= k < |a| ==> a[k] != '.';
    }
    IndexOfAt(r, '.', |a|);
  }

  /** The reference's result: digits, then, exactly when the kept characters had a dot, one
      '.' and more digits; the digits before the dot are the kept characters up to their
      first dot. */
  lemma ReferenceShape(value: string)
    ensures var r := CostMaskReference(value);
      var f := Filter(value, IsCostChar);
      && (forall k :: 0 <= k < |r| ==> IsCostChar(r[k]))
      && AtMostOneDot(r)
      && r[..IndexOf(r, '.')] == f[..IndexOf(f, '.')]
      && AllDigits(r[..IndexOf(r, '.')])
      && (IndexOf(r, '.') < |r| <==> IndexOf(f, '.') < |f|)
  {
    var f := Filter(value, IsCostChar);
    var i := IndexOf(f, '.');
    FilterKept(value, IsCostChar);
    IntegerPartDigits(f);
    if i == |f| {
      assert f[..i] == f;
      assert forall k :: 0 <= k < |f| ==> IsDigit(f[..i][k]);
    } else {
      var tail := Fraction(f[i + 1..]);
      FractionDigits(f[i + 1..]);
      DigitsDotDigits(f[..i], tail);
    }
  }

  /** What the stored cost guess looks like: only digits and '.', at most one '.', the
      digits before it are the kept characters up to their first dot, and it has a dot
      exactly when the kept characters do. */
  lemma CostMaskShape(value: string)
    ensures var r := CostMask(value);
      var f := Filter(value, IsCostChar);
      && (forall k :: 0 <= k < |r| ==> IsCostChar(r[k]))
      && AtMostOneDot(r)
      && r[..IndexOf(r, '.')] == f[..IndexOf(f, '.')]
      && AllDigits(r[..IndexOf(r, '.')])
      && (IndexOf(r, '.') < |r| <==> IndexOf(f, '.') < |f|)
  {
    CostMaskSpec(value);
    ReferenceShape(value);
  }

  /** When the segment right after the first dot is non-empty, the fraction kept is a
      prefix of it of at most two characters. */
  lemma CostMaskTruncates(value: string)
    requires var f := Filter(value, IsCostChar);
      var parts := SplitDots(f);
      |parts| > 1 && parts[1] != []
    ensures var r := CostMask(value);
      var parts := SplitDots(Filter(value, IsCostChar));
      && IndexOf(r, '.') < |r|
      && r[IndexOf(r, '.') + 1..] == Slice(parts[1], 0, 2)
      && |r[IndexOf(r, '.') + 1..]| <= 2
      && r[IndexOf(r, '.') + 1..] <= parts[1]
  {
    var f := Filter(value, IsCostChar);
    var parts := SplitDots(f);
    var frac := Slice(parts[1], 0, 2);
    SlicePrefix(parts[1], 2);
    SplitDotsDotFree(f);
    assert '.' !in parts[0];
    var r := parts[0] + "." + frac;
    assert r[..|parts[0]|] == parts[0];
    IndexOfAt(r, '.', |parts[0]|);
    assert r[|parts[0]| + 1..] == frac;
  }

  /** When the segment right after the first dot is empty (`1..345`), nothing is
      truncated: every non-dot character after the first dot is kept. */
  lemma CostMaskKeepsAfterEmptySegment(value: string)
    requires var f := Filter(value, IsCostChar);
      var parts := SplitDots(f);
      |parts| > 1 && parts[1] == []
    ensures IndexOf(Filter(value, IsCostChar), '.') < |Filter(value, IsCostChar)|
    ensures var f := Filter(value, IsCostChar);
      var i := IndexOf(f, '.');
      CostMask(value) == f[..i] + "." + Filter(f[i + 1..], NotDot)
  {
    var f := Filter(value, IsCostChar);
    SplitAtFirstDot(f);
    var i := IndexOf(f, '.');
    if i < |f| {
      SplitAtFirstDot(f[i + 1..]);
    }
    CostMaskSpec(value);
  }

  /** `1..345` is stored as `1.345`: three digits follow the dot. */
  lemma CostMaskEmptySegmentExample()
    ensures CostMask("1..345") == "1.345"
  {
    SplitExamples();
    FilterKeepsAll("1..345", IsCostChar);
    assert Concat(["", "345"]) == "345" by {
      assert Concat(["345"]) == "345";
      assert ["", "345"][1..] == ["345"];
    }
    assert ["1", "", "345"][1..] == ["", "345"];
    assert "1" + "." + "345" == "1.345";
  }

  /** Masking `1.345` again gives `1.34`, so the cost mask is not idempotent. */
  lemma CostMaskNotIdempotent()
    ensures CostMask(CostMask("1..345")) != CostMask("1..345")
  {
    CostMaskEmptySegmentExample();
    SplitExamples();
    FilterKeepsAll("1.345", IsCostChar);
    assert Slice("345", 0, 2) == "34";
    assert CostMask("1.345") == "1" + "." + "34";
    assert |CostMask("1.345")| == 4;
  }

  lemma SplitExamples()
    ensures SplitDots("1..345") == ["1", "", "345"]
    ensures SplitDots("1.345") == ["1", "345"]
  {
    SplitDigitsExample();
    SplitCons('.', "345");
    assert ['.'] + "345" == ".345";
    assert SplitDots(".345") == ["", "345"];
    SplitCons('.', ".345");
    assert ['.'] + ".345" == "..345";
    assert SplitDots("..345") == ["", "", "345"];
    SplitCons('1', "..345");
    assert ['1'] + "..345" == "1..345";
    assert ['1'] + "" == "1";
    assert SplitDots("1..345") == ["1", "", "345"];
    SplitCons('1', ".345");
    assert ['1'] + ".345" == "1.345";
    assert SplitDots("1.345") == ["1", "345"];
  }

  lemma SplitDigitsExample()
    ensures SplitDots("345") == ["345"]
  {
    assert SplitDots("") == [""];
    SplitCons('5', "");
    assert ['5'] + "" == "5";
    assert SplitDots("5") == ["5"];
    SplitCons('4', "5");
    assert ['4'] + "5" == "45";
    assert SplitDots("45") == ["45"];
    SplitCons('3', "45");
    assert ['3'] + "45" == "345";
  }

  lemma SplitCons(c: char, t: string)
    ensures SplitDots([c] + t) ==
      if c == '.' then [[]] + SplitDots(t)
      else [[c] + SplitDots(t)[0]] + SplitDots(t)[1..]
  {
    assert ([c] + t)[1..] == t;
  }

  // ---------------------------------------------------------------------------
  // Spidr PIN

  /** `formatSpidrPin`: the digits of the value in groups of four joined by '-', the fourth
      group cut off after four digits. */
  function FormatSpidrPin(value: string): (r: string) {
    var digits := DigitsOnly(value);
    if |digits| <= 4 then digits
    else if |digits| <= 8 then Slice(digits, 0, 4) + "-" + Slice(digits, 4, |digits|)
    else if |digits| <= 12 then
      Slice(digits, 0, 4) + "-" + Slice(digits, 4, 8) + "-" + Slice(digits, 8, |digits|)
    else
      Slice(digits, 0, 4) + "-" + Slice(digits, 4, 8) + "-" + Slice(digits, 8, 12) + "-"
      + Slice(digits, 12, 16)
  }

  /** Number of digits the formatted PIN keeps. */
  function PinDigitCount(value: string): (n: nat) {
    Min(16, |DigitsOnly(value)|)
  }

  /** `r` holds a '-' at every fifth position and the digits of `d` in order elsewhere. */
  predicate Grouped(r: string, d: string) {
    forall k :: 0 <= k < |r| ==> k - k / 5 < |d| && r[k] == if k % 5 == 4 then '-' else d[k - k / 5]
  }

  /** The first group: up to four characters of `d`, no hyphen yet. */
  lemma GroupedFirst(d: string, hi: nat)
    requires hi <= 4
    ensures Grouped(Slice(d, 0, hi), d)
  {
  }

  /** Appending '-' and the next group (at most four characters) to `g` complete groups
      keeps the layout. */
  lemma GroupedExtend(x: string, d: string, g: nat, hi: nat)
    requires g >= 1 && |x| == 5 * g - 1 && Grouped(x, d)
    requires 4 * g < hi <= 4 * g + 4 && hi <= |d|
    ensures Grouped(x + "-" + Slice(d, 4 * g, hi), d)
  {
    var y := Slice(d, 4 * g, hi);
    var r := x + "-" + y;
    forall k | 0 <= k < |r|
      ensures k - k / 5 < |d| && r[k] == if k % 5 == 4 then '-' else d[k - k / 5]
    {
      if k > |x| {
        var j := k - 5 * g;
        assert 0 <= j < 4;
        assert k / 5 == g && k % 5 == j;
        assert r[k] == y[j] == d[4 * g + j];
      }
    }
  }

  /** Character by character: a '-' at every fifth position (4, 9, 14) and the digits in
      order everywhere else, `n + (n - 1) / 4` characters for `n` kept digits. */
  lemma PinLayout(value: string)
    ensures var r := FormatSpidrPin(value);
      var n := PinDigitCount(value);
      && |r| == (if n == 0 then 0 else n + (n - 1) / 4)
      && Grouped(r, DigitsOnly(value))
  {
    var d := DigitsOnly(value);
    var n := |d|;
    if n <= 4 {
      GroupedFirst(d, n);
      assert Slice(d, 0, n) == d;
    } else {
      GroupedFirst(d, 4);
      var hi := Min(n, 8);
      GroupedExtend(Slice(d, 0, 4), d, 1, hi);
      if n > 8 {
        var x := Slice(d, 0, 4) + "-" + Slice(d, 4, 8);
        hi := Min(n, 12);
        GroupedExtend(x, d, 2, hi);
        if n > 12 {
          GroupedExtend(x + "-" + Slice(d, 8, 12), d, 3, Min(n, 16));
        }
      }
    }
  }

  /** The shape of a stored PIN: at most 19 characters, hyphens exactly at positions 4, 9
      and 14 (those present), digits everywhere else, and never a trailing hyphen. */
  lemma PinShape(value: string)
    ensures var r := FormatSpidrPin(value);
      && |r| <= 19
      && (forall k :: 0 <= k < |r| ==> (r[k] == '-' <==> k == 4 || k == 9 || k == 14))
      && (forall k :: 0 <= k < |r| && r[k] != '-' ==> IsDigit(r[k]))
      && (r != [] ==> r[|r| - 1] != '-')
  {
    PinCharacters(value);
    PinEnd(value);
  }

  lemma PinCharacters(value: string)
    ensures var r := FormatSpidrPin(value);
      && |r| <= 19
      && (forall k :: 0 <= k < |r| ==> (r[k] == '-' <==> k == 4 || k == 9 || k == 14))
      && (forall k :: 0 <= k < |r| && r[k] != '-' ==> IsDigit(r[k]))
  {
    var r := FormatSpidrPin(value);
    var d := DigitsOnly(value);
    PinLayout(value);
    DigitsOnlyDigits(value);
    forall k | 0 <= k < |r|
      ensures r[k] == '-' <==> k == 4 || k == 9 || k == 14
      ensures r[k] != '-' ==> IsDigit(r[k])
    {
      if k % 5 != 4 {
        assert r[k] == d[k - k / 5];
        assert IsDigit(d[k - k / 5]);
      }
    }
  }

  lemma PinEnd(value: string)
    ensures var r := FormatSpidrPin(value);
      r != [] ==> r[|r| - 1] != '-'
  {
    var r := FormatSpidrPin(value);
    var n := PinDigitCount(value);
    PinLayout(value);
    DigitsOnlyDigits(value);
    if n > 0 {
      var last := |r| - 1;
      if n <= 4 {
        assert last == n - 1;
      } else if n <= 8 {
        assert last == n;
      } else if n <= 12 {
        assert last == n + 1;
      } else {
        assert last == n + 2;
      }
      assert last % 5 != 4;
    }
  }

  /** A hyphen drops out of a filter that does not keep it. */
  lemma DropHyphen(x: string, y: string, keep: char -> bool)
    requires Filter(y, keep) == y && !keep('-')
    ensures Filter(x + "-" + y, keep) == Filter(x, keep) + y
  {
    assert Filter("-", keep) == [];
    FilterAppend(x + "-", y, keep);
    FilterAppend(x, "-", keep);
  }

  /** A filter that keeps every digit keeps a string of digits whole. */
  lemma KeepDigits(y: string, keep: char -> bool)
    requires AllDigits(y) && forall c :: IsDigit(c) ==> keep(c)
    ensures Filter(y, keep) == y
  {
    assert forall i :: 0 <= i < |y| ==> keep(y[i]);
  }

  /** A slice of digits is digits. */
  lemma SliceDigits(s: string, lo: nat, hi: nat)
    requires AllDigits(s)
    ensures AllDigits(Slice(s, lo, hi))
  {
    var r := Slice(s, lo, hi);
    assert forall k :: 0 <= k < |r| ==> r[k] == s[Min(lo, |s|) + k];
  }

  /** Adjacent slices join. */
  lemma SliceJoin(s: string, lo: nat, mid: nat, hi: nat)
    requires lo <= mid <= hi
    ensures Slice(s, lo, mid) + Slice(s, mid, hi) == Slice(s, lo, hi)
  {
    var a, b, c := Slice(s, lo, mid), Slice(s, mid, hi), Slice(s, lo, hi);
    assert |a + b| == |c|;
    forall k | 0 <= k < |c| ensures (a + b)[k] == c[k] {
      if k >= |a| {
        assert (a + b)[k] == b[k - |a|];
      }
    }
  }

  /** Removing the hyphens from the stored PIN (or keeping its digits, the same thing)
      gives the first 16 digits of the typed value. */
  lemma PinDigits(value: string, keep: char -> bool)
    requires !keep('-') && forall c :: IsDigit(c) ==> keep(c)
    ensures Filter(FormatSpidrPin(value), keep) == Slice(DigitsOnly(value), 0, 16)
  {
    var d := DigitsOnly(value);
    var n := |d|;
    var a, b, c := Slice(d, 0, 4), Slice(d, 4, 8), Slice(d, 8, 12);
    DigitsOnlyDigits(value);
    SliceDigits(d, 0, 4);
    SliceDigits(d, 4, 8);
    SliceDigits(d, 8, 12);
    KeepDigits(a, keep);
    KeepDigits(b, keep);
    KeepDigits(c, keep);
    SliceJoin(d, 0, 4, 8);
    SliceJoin(d, 0, 8, 12);
    SliceJoin(d, 0, 12, 16);
    if n <= 4 {
      KeepDigits(d, keep);
      assert Slice(d, 0, 16) == d;
    } else if n <= 8 {
      var e := Slice(d, 4, n);
      SliceDigits(d, 4, n);
      KeepDigits(e, keep);
      DropHyphen(a, e, keep);
      SliceJoin(d, 0, 4, n);
      assert Slice(d, 0, n) == Slice(d, 0, 16) == d;
    } else if n <= 12 {
      var e := Slice(d, 8, n);
      SliceDigits(d, 8, n);
      KeepDigits(e, keep);
      DropHyphen(a, b, keep);
      DropHyphen(a + "-" + b, e, keep);
      SliceJoin(d, 0, 8, n);
      assert Slice(d, 0, n) == Slice(d, 0, 16) == d;
    } else {
      var e := Slice(d, 12, 16);
      SliceDigits(d, 12, 16);
      KeepDigits(e, keep);
      DropHyphen(a, b, keep);
      DropHyphen(a + "-" + b, c, keep);
      DropHyphen(a + "-" + b + "-" + c, e, keep);
    }
  }

  /** Formatting a formatted PIN changes nothing. */
  lemma PinIdempotent(value: string)
    ensures FormatSpidrPin(FormatSpidrPin(value)) == FormatSpidrPin(value)
  {
    var r := FormatSpidrPin(value);
    var d := DigitsOnly(value);
    PinDigits(value, IsDigit);
    assert DigitsOnly(r) == Slice(d, 0, 16);
    PinLayout(value);
    PinLayout(r);
    var r2 := FormatSpidrPin(r);
    assert PinDigitCount(r) == PinDigitCount(value);
    forall k | 0 <= k < |r| ensures r2[k] == r[k] {
      if k % 5 != 4 {
        assert DigitsOnly(r)[k - k / 5] == d[k - k / 5];
      }
    }
  }
}
