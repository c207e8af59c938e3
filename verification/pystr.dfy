/** The fragment of Python's `str` API the scraper relies on: substring search
    (`sub in s`), `s.split(sep)`, `s.split(sep, 1)`, `s.lower()` and `str(n)`,
    over strings as sequences of characters. `Join` is not called by the
    scraper; it is the reference definition behind the split/join round trip
    and the reference author list. */
module PyStr {
  import opened Results

  /** `p` is a prefix of `s`. */
  predicate StartsWith(s: string, p: string) {
    |p| <= |s| && s[..|p|] == p
  }

  /** The index of the first occurrence of `sub` in `s` (Python's `s.find(sub)`,
      with `None` for -1). */
  function Find(s: string, sub: string): (r: Option<nat>)
    ensures r.Some? ==> r.value <= |s| && StartsWith(s[r.value..], sub)
    ensures r.Some? ==> forall j :: 0 <= j < r.value ==> !StartsWith(s[j..], sub)
    ensures r.None? ==> forall j :: 0 <= j <= |s| ==> !StartsWith(s[j..], sub)
    decreases |s|
  {
    if StartsWith(s, sub) then Some(0)
    else if |s| == 0 then None
    else
      var rest := Find(s[1..], sub);
      assert forall j :: 1 <= j <= |s| ==> s[j..] == s[1..][j - 1..];
      match rest
      case None => None
      case Some(k) => Some(k + 1)
  }

  /** Python's `sub in s`. */
  predicate Contains(s: string, sub: string) {
    Find(s, sub).Some?
  }

  /** `sub in s` holds exactly when `sub` starts at some position of `s`. */
  lemma ContainsIff(s: string, sub: string)
    ensures Contains(s, sub) <==> exists j :: 0 <= j <= |s| && StartsWith(s[j..], sub)
  {
    if !Contains(s, sub) {
      assert forall j :: 0 <= j <= |s| ==> !StartsWith(s[j..], sub);
    }
  }

  /** The empty string is a substring of every string, so an empty query matches anything. */
  lemma ContainsEmpty(s: string)
    ensures Contains(s, "")
  {
    assert StartsWith(s[0..], "");
  }

  /** A string occurs in another of the same length only as the whole of it;
      a longer string never occurs. */
  lemma ContainsByLength(s: string, sub: string)
    ensures |s| < |sub| ==> !Contains(s, sub)
    ensures |s| == |sub| ==> (Contains(s, sub) <==> s == sub)
  {
    ContainsIff(s, sub);
    if |s| == |sub| && s == sub {
      assert StartsWith(s[0..], sub);
    }
  }

  /** Substring containment is transitive: whatever occurs in an occurrence of
      `x` in `s` occurs in `s`. */
  lemma ContainsTrans(s: string, x: string, y: string)
    requires Contains(s, x) && Contains(x, y)
    ensures Contains(s, y)
  {
    ContainsIff(s, x);
    ContainsIff(x, y);
    var a :| 0 <= a <= |s| && StartsWith(s[a..], x);
    var b :| 0 <= b <= |x| && StartsWith(x[b..], y);
    StartsWithNested(s, a, x, b, y);
    ContainsIff(s, y);
  }

  /** An occurrence of `y` at `b` inside an occurrence of `x` at `a` is an
      occurrence of `y` at `a + b`. */
  lemma StartsWithNested(s: string, a: nat, x: string, b: nat, y: string)
    requires a <= |s| && StartsWith(s[a..], x)
    requires b <= |x| && StartsWith(x[b..], y)
    ensures a + b <= |s| && StartsWith(s[a + b..], y)
  {
    assert x == s[a..a + |x|];
    assert x[b..][..|y|] == s[a + b..][..|y|];
  }

  /** Python's `s.split(sep)` for a non-empty separator: the pieces between the
      non-overlapping occurrences of `sep`, scanning left to right. */
  function Split(s: string, sep: string): (r: seq<string>)
    requires |sep| > 0
    ensures |r| >= 1
    ensures forall k :: 0 <= k < |r| ==> !Contains(r[k], sep)
    decreases |s|
  {
    match Find(s, sep)
    case None => [s]
    case Some(i) =>
      NoEarlierOccurrence(s, sep, i);
      [s[..i]] + Split(s[i + |sep|..], sep)
  }

  /** A prefix of `s` ending before the first occurrence of `sep` contains no `sep`. */
  lemma NoEarlierOccurrence(s: string, sep: string, i: nat)
    requires |sep| > 0 && i <= |s|
    requires forall j :: 0 <= j < i ==> !StartsWith(s[j..], sep)
    ensures !Contains(s[..i], sep)
  {
    var p := s[..i];
    forall j | 0 <= j <= i
      ensures !StartsWith(p[j..], sep)
    {
      if |sep| <= |p[j..]| {
        assert p[j..][..|sep|] == s[j..][..|sep|];
      }
    }
    ContainsIff(p, sep);
  }

  /** Python's `sep.join(xs)`. */
  function Join(xs: seq<string>, sep: string): string
    decreases |xs|
  {
    if |xs| == 0 then ""
    else if |xs| == 1 then xs[0]
    else xs[0] + sep + Join(xs[1..], sep)
  }

  /** Joining is extended on the right one piece at a time. */
  lemma {:induction false} JoinSnoc(xs: seq<string>, y: string, sep: string)
    requires |xs| >= 1
    ensures Join(xs + [y], sep) == Join(xs, sep) + sep + y
    decreases |xs|
  {
    if |xs| == 1 {
      assert xs + [y] == [xs[0], y];
      assert (xs + [y])[1..] == [y];
    } else {
      assert (xs + [y])[1..] == xs[1..] + [y];
      JoinSnoc(xs[1..], y, sep);
    }
  }

  /** Round trip: joining the pieces of a split with the same separator gives back the string. */
  lemma {:induction false} SplitJoin(s: string, sep: string)
    requires |sep| > 0
    ensures Join(Split(s, sep), sep) == s
    decreases |s|
  {
    match Find(s, sep)
    case None =>
    case Some(i) =>
      var tail := s[i + |sep|..];
      var rest := Split(tail, sep);
      SplitJoin(tail, sep);
      var r := Split(s, sep);
      assert r == [s[..i]] + rest;
      assert |r| >= 2 && r[0] == s[..i] && r[1..] == rest;
      assert Join(r, sep) == s[..i] + sep + Join(rest, sep);
      assert s[i..][..|sep|] == sep;
      assert s == s[..i] + s[i..][..|sep|] + tail;
  }

  /** The number of non-overlapping occurrences of `sep` in `s`, scanning left to right. */
  function CountOcc(s: string, sep: string): nat
    requires |sep| > 0
    decreases |s|
  {
    if |s| == 0 then 0
    else if StartsWith(s, sep) then 1 + CountOcc(s[|sep|..], sep)
    else CountOcc(s[1..], sep)
  }

  /** Skipping a stretch where no occurrence starts does not change the count. */
  lemma {:induction false} CountSkip(s: string, sep: string, i: nat)
    requires |sep| > 0 && i <= |s|
    requires forall j :: 0 <= j < i ==> !StartsWith(s[j..], sep)
    ensures CountOcc(s, sep) == CountOcc(s[i..], sep)
    decreases i
  {
    if i > 0 {
      assert !StartsWith(s[0..], sep);
      assert s[0..] == s;
      forall j | 0 <= j < i - 1
        ensures !StartsWith(s[1..][j..], sep)
      {
        assert s[1..][j..] == s[j + 1..];
      }
      CountSkip(s[1..], sep, i - 1);
      assert s[1..][i - 1..] == s[i..];
    }
  }

  /** Python's `s.split(sep)` yields one more piece than there are separators. */
  lemma {:induction false} SplitCount(s: string, sep: string)
    requires |sep| > 0
    ensures |Split(s, sep)| == CountOcc(s, sep) + 1
    decreases |s|
  {
    match Find(s, sep)
    case None =>
      CountSkip(s, sep, |s|);
      assert s[|s|..] == [];
    case Some(i) =>
      SplitCountStep(s, sep, i);
      SplitCount(s[i + |sep|..], sep);
  }

  /** At the first occurrence, both the pieces and the count advance by one. */
  lemma SplitCountStep(s: string, sep: string, i: nat)
    requires |sep| > 0 && Find(s, sep) == Some(i)
    ensures i + |sep| <= |s|
    ensures |Split(s, sep)| == 1 + |Split(s[i + |sep|..], sep)|
    ensures CountOcc(s, sep) == 1 + CountOcc(s[i + |sep|..], sep)
  {
    CountSkip(s, sep, i);
    var tail := s[i + |sep|..];
    assert s[i..][|sep|..] == tail;
    assert CountOcc(s[i..], sep) == 1 + CountOcc(tail, sep);
  }

  /** A positive count means some occurrence exists. */
  lemma {:induction false} CountPositive(s: string, sep: string)
    requires |sep| > 0
    requires CountOcc(s, sep) > 0
    ensures Contains(s, sep)
    decreases |s|
  {
    if !StartsWith(s, sep) {
      CountPositive(s[1..], sep);
      var j := Find(s[1..], sep).value;
      assert s[1..][j..] == s[j + 1..];
      ContainsIff(s, sep);
    } else {
      assert s[0..] == s;
      ContainsIff(s, sep);
    }
  }

  /** A separator occurs exactly when it is counted at least once. */
  lemma ContainsCount(s: string, sep: string)
    requires |sep| > 0
    ensures Contains(s, sep) <==> CountOcc(s, sep) > 0
  {
    SplitCount(s, sep);
    if CountOcc(s, sep) > 0 {
      CountPositive(s, sep);
    }
  }

  /** A prefix of a string that lacks a pattern lacks it too. */
  lemma PrefixKeepsAbsence(s: string, p: string, pat: string)
    requires StartsWith(s, p)
    requires !Contains(s, pat)
    ensures !Contains(p, pat)
  {
    forall j | 0 <= j <= |p|
      ensures !StartsWith(p[j..], pat)
    {
      if |pat| <= |p[j..]| {
        assert p[j..][..|pat|] == s[j..][..|pat|];
      }
    }
    ContainsIff(p, pat);
  }

  /** Cutting the last piece of a join short cuts the joined string by the same tail. */
  lemma JoinCutLast(parts: seq<string>, sep: string, last: string)
    requires |parts| >= 1 && StartsWith(parts[|parts| - 1], last)
    ensures var whole := Join(parts, sep);
      var cut := Join(parts[..|parts| - 1] + [last], sep);
      && StartsWith(whole, cut)
      && whole[|cut|..] == parts[|parts| - 1][|last|..]
  {
    var n := |parts|;
    var full := parts[n - 1];
    if n == 1 {
      assert parts == [full];
      assert parts[..0] + [last] == [last];
    } else {
      var init := parts[..n - 1];
      assert parts == init + [full];
      JoinSnoc(init, full, sep);
      JoinSnoc(init, last, sep);
      var pre := Join(init, sep) + sep;
      assert Join(parts, sep) == pre + full;
      assert Join(init + [last], sep) == pre + last;
      assert full == last + full[|last|..];
      assert Join(parts, sep) == (pre + last) + full[|last|..];
    }
  }

  /** `r` is the text of `s` before the first occurrence of `sep`, or all of `s`
      when `sep` does not occur: a prefix of `s` that is either the whole of it
      or followed by `sep`, with no occurrence of `sep` starting inside it. */
  predicate IsHead(s: string, sep: string, r: string) {
    && StartsWith(s, r)
    && (r == s || StartsWith(s[|r|..], sep))
    && forall j :: 0 <= j < |r| ==> !StartsWith(s[j..], sep)
  }

  /** The description pins the cut down: at most one string is the head of `s`. */
  lemma HeadUnique(s: string, sep: string, a: string, b: string)
    requires IsHead(s, sep, a) && IsHead(s, sep, b)
    ensures a == b
  {
    if |a| < |b| {
      assert false;
    } else if |b| < |a| {
      assert false;
    }
  }

  /** Python's `s.split(sep)[0]` for a non-empty separator: the text before the
      first occurrence of `sep`, or all of `s` when there is none. */
  function Head(s: string, sep: string): (r: string)
    requires |sep| > 0
    ensures IsHead(s, sep, r)
    ensures !Contains(r, sep)
    ensures Contains(s, sep) <==> r != s
  {
    HeadFacts(s, sep);
    Split(s, sep)[0]
  }

  lemma HeadFacts(s: string, sep: string)
    requires |sep| > 0
    ensures var r := Split(s, sep)[0];
      IsHead(s, sep, r) && (Contains(s, sep) <==> r != s)
  {
    match Find(s, sep)
    case None =>
    case Some(i) =>
      assert Split(s, sep)[0] == s[..i];
  }

  /** Python's `s.split(sep)[n]`, including the exceptions it raises. */
  function SplitAt(s: string, sep: string, n: nat): (r: Result<string>)
    ensures sep == "" <==> r == Err(EmptySeparator)
    ensures r.Ok? ==> !Contains(r.value, sep)
    ensures sep != "" ==> (r.Ok? <==> n <= CountOcc(s, sep))
    ensures sep != "" && n == 0 ==> r == Ok(Head(s, sep))
    ensures sep != "" && r.Err? ==> r.error == IndexError
  {
    if sep == "" then Err(EmptySeparator)
    else
      SplitCount(s, sep);
      var pieces := Split(s, sep);
      if n < |pieces| then Ok(pieces[n]) else Err(IndexError)
  }

  /** Field `n + 1` of `s` is field `n` of what follows the first separator:
      `s.split(sep)[n + 1] == s.split(sep, 1)[1].split(sep)[n]`. */
  lemma SplitAtNext(s: string, sep: string, n: nat)
    requires sep != "" && Contains(s, sep)
    ensures SplitAt(s, sep, n + 1) == SplitAt(AfterFirst(s, sep).value, sep, n)
  {
    var i := Find(s, sep).value;
    var rest := s[i + |sep|..];
    assert AfterFirst(s, sep) == Ok(rest);
    assert Split(s, sep) == [s[..i]] + Split(rest, sep);
    SplitAtPiece(s, sep, n + 1);
    SplitAtPiece(rest, sep, n);
  }

  /** Field `n` is piece `n` of the split, when there is one. */
  lemma SplitAtPiece(s: string, sep: string, n: nat)
    requires sep != ""
    ensures SplitAt(s, sep, n) == if n < |Split(s, sep)| then Ok(Split(s, sep)[n]) else Err(IndexError)
  {
  }

  /** Python's `s.split(sep, 1)[1]`: everything after the first occurrence of
      `sep`, or an `IndexError` when `sep` does not occur. */
  function AfterFirst(s: string, sep: string): (r: Result<string>)
    ensures sep == "" <==> r == Err(EmptySeparator)
    ensures sep != "" ==> (r.Ok? <==> Contains(s, sep))
    ensures sep != "" && r.Ok? ==> s == Head(s, sep) + sep + r.value
  {
    if sep == "" then Err(EmptySeparator)
    else
      match Find(s, sep)
      case None => Err(IndexError)
      case Some(i) =>
        HeadAt(s, sep, i);
        CutAround(s, sep, i);
        Ok(s[i + |sep|..])
  }

  /** An occurrence of `sep` at `i` splits `s` into what precedes it, `sep`, and what follows. */
  lemma CutAround(s: string, sep: string, i: nat)
    requires i <= |s| && StartsWith(s[i..], sep)
    ensures s == s[..i] + sep + s[i + |sep|..]
  {
    assert s[i..][..|sep|] == s[i..i + |sep|];
    assert s == s[..i] + s[i..i + |sep|] + s[i + |sep|..];
  }

  /** The head ends where the first occurrence of the separator starts. */
  lemma HeadAt(s: string, sep: string, i: nat)
    requires |sep| > 0 && Find(s, sep) == Some(i)
    ensures Head(s, sep) == s[..i]
  {
    assert Split(s, sep)[0] == s[..i];
  }

  /** `str.lower()` on one character; only the ASCII letters are modelled. */
  function LowerChar(c: char): char {
    if 'A' <= c <= 'Z' then (c as int - 'A' as int + 'a' as int) as char else c
  }

  /** `str.lower()`, character by character. */
  function Lower(s: string): (r: string)
    ensures |r| == |s|
    ensures forall i :: 0 <= i < |s| ==> r[i] == LowerChar(s[i])
    ensures forall i :: 0 <= i < |r| ==> !('A' <= r[i] <= 'Z')
  {
    seq(|s|, i requires 0 <= i < |s| => LowerChar(s[i]))
  }

  /** Lowering twice is lowering once. */
  lemma LowerIdempotent(s: string)
    ensures Lower(Lower(s)) == Lower(s)
  {
  }

  /** Lists laid end to end (`''.join(xs)` on strings, repeated `+=` on lists). */
  function Concat<T>(xss: seq<seq<T>>): seq<T>
    decreases |xss|
  {
    if |xss| == 0 then [] else xss[0] + Concat(xss[1..])
  }

  /** Where list `p` starts in the concatenation of `xss`. */
  function Start<T>(xss: seq<seq<T>>, p: nat): nat
    requires p <= |xss|
  {
    if p == 0 then 0 else |xss[0]| + Start(xss[1..], p - 1)
  }

  /** Element `q` of list `p` sits at `Start(xss, p) + q` in the concatenation. */
  lemma {:induction false} ConcatAt<T>(xss: seq<seq<T>>, p: nat, q: nat)
    requires p < |xss| && q < |xss[p]|
    ensures Start(xss, p) + q < |Concat(xss)|
    ensures Concat(xss)[Start(xss, p) + q] == xss[p][q]
    decreases p
  {
    var rest := Concat(xss[1..]);
    assert Concat(xss) == xss[0] + rest;
    if p > 0 {
      assert xss[1..][p - 1] == xss[p];
      ConcatAt(xss[1..], p - 1, q);
      var k := Start(xss[1..], p - 1) + q;
      assert (xss[0] + rest)[|xss[0]| + k] == rest[k];
    } else {
      assert (xss[0] + rest)[q] == xss[0][q];
    }
  }

  /** Lists no longer than their partners, whose concatenation is as long as the
      partners' concatenation, are each exactly as long as their partner, and
      therefore start where their partner starts. */
  lemma {:induction false} ConcatLengths<S, T>(xss: seq<seq<S>>, yss: seq<seq<T>>)
    requires |xss| == |yss|
    requires forall i :: 0 <= i < |xss| ==> |xss[i]| <= |yss[i]|
    requires |Concat(xss)| == |Concat(yss)|
    ensures forall i :: 0 <= i < |xss| ==> |xss[i]| == |yss[i]|
    ensures forall p :: 0 <= p <= |xss| ==> Start(xss, p) == Start(yss, p)
    decreases |xss|
  {
    if |xss| > 0 {
      ConcatShorter(xss[1..], yss[1..]);
      ConcatLengths(xss[1..], yss[1..]);
      forall i | 1 <= i < |xss|
        ensures |xss[i]| == |yss[i]|
      {
        assert xss[i] == xss[1..][i - 1] && yss[i] == yss[1..][i - 1];
      }
      forall p | 1 <= p <= |xss|
        ensures Start(xss, p) == Start(yss, p)
      {
        assert Start(xss[1..], p - 1) == Start(yss[1..], p - 1);
      }
    }
  }

  /** Element `q` of list `p` of `xss` sits where element `q` of list `p` of
      `yss` does, when the lists are no longer than their partners and the
      concatenations are equally long. */
  lemma ConcatAtAligned<S, T>(xss: seq<seq<S>>, yss: seq<seq<T>>, p: nat, q: nat)
    requires |xss| == |yss|
    requires forall i :: 0 <= i < |xss| ==> |xss[i]| <= |yss[i]|
    requires |Concat(xss)| == |Concat(yss)|
    requires p < |yss| && q < |yss[p]|
    ensures |xss[p]| == |yss[p]| && Start(yss, p) + q < |Concat(xss)|
    ensures Concat(xss)[Start(yss, p) + q] == xss[p][q]
  {
    ConcatLengths(xss, yss);
    ConcatAt(xss, p, q);
  }

  /** Lists no longer than their partners concatenate to no more than the partners do. */
  lemma {:induction false} ConcatShorter<S, T>(xss: seq<seq<S>>, yss: seq<seq<T>>)
    requires |xss| == |yss|
    requires forall i :: 0 <= i < |xss| ==> |xss[i]| <= |yss[i]|
    ensures |Concat(xss)| <= |Concat(yss)|
    decreases |xss|
  {
    if |xss| > 0 {
      assert forall i :: 1 <= i < |xss| ==> xss[1..][i - 1] == xss[i] && yss[1..][i - 1] == yss[i];
      ConcatShorter(xss[1..], yss[1..]);
    }
  }

  /** The character of a decimal digit. */
  function DigitChar(d: nat): char
    requires d < 10
  {
    ('0' as int + d) as char
  }

  predicate IsDigit(c: char) {
    '0' <= c <= '9'
  }

  /** Python's `str(n)` for a non-negative integer: its decimal digits, most
      significant first. */
  function Decimal(n: nat): (r: string)
    ensures |r| >= 1
    ensures forall i :: 0 <= i < |r| ==> IsDigit(r[i])
    ensures |r| > 1 ==> r[0] != '0'
    decreases n
  {
    if n < 10 then [DigitChar(n)]
    else Decimal(n / 10) + [DigitChar(n % 10)]
  }

  /** Reading a string of decimal digits back as a number (`int(s)`). */
  function ParseDecimal(s: string): nat
    requires forall i :: 0 <= i < |s| ==> IsDigit(s[i])
    decreases |s|
  {
    if |s| == 0 then 0
    else
      var c := s[|s| - 1];
      assert IsDigit(c);
      ParseDecimal(s[..|s| - 1]) * 10 + (c as int - '0' as int)
  }

  /** `int(str(n)) == n`: the decimal rendering loses nothing. */
  lemma {:induction false} DecimalRoundTrip(n: nat)
    ensures ParseDecimal(Decimal(n)) == n
    decreases n
  {
    if n >= 10 {
      var d := Decimal(n);
      DecimalRoundTrip(n / 10);
      assert d[..|d| - 1] == Decimal(n / 10);
    }
  }

  /** Different numbers render differently. */
  lemma DecimalInjective(a: nat, b: nat)
    requires Decimal(a) == Decimal(b)
    ensures a == b
  {
    DecimalRoundTrip(a);
    DecimalRoundTrip(b);
  }
}
