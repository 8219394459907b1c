/**
 * The offset/keyframe engine (app.jsx `kfs`, `upsertKF`, `removeKF`, `interp`,
 * `getOffsetAt`). A layer's offset at a frame is taken from its keyframes when it
 * has any: held before the first one, held after the last one, and linearly
 * interpolated (exactly, in rationals, then rounded as `Math.round` does) between
 * the nearest keyframes on either side. Without keyframes the per-frame offsets
 * array is used.
 */
module Keyframes {
  import opened Options
  import opened Grid

  datatype Keyframe = Keyframe(f: int, x: int, y: int)

  predicate SortedByFrame(ks: seq<Keyframe>) {
    forall i, j :: 0 <= i < j < |ks| ==> ks[i].f <= ks[j].f
  }

  /** No two keyframes share a frame index. */
  predicate UniqueFrames(ks: seq<Keyframe>) {
    forall i, j :: 0 <= i < j < |ks| ==> ks[i].f != ks[j].f
  }

  /** Every keyframe of `ks` has a frame index different from `f`. */
  predicate NoneAt(ks: seq<Keyframe>, f: int) {
    forall k :: k in ks ==> k.f != f
  }

  // ---------------------------------------------------------------------------
  // kfs: a stable sort by frame index (JavaScript's Array.prototype.sort is stable)
  // ---------------------------------------------------------------------------

  /** Inserts `k` after every element of the sorted `s` whose frame index is at most `k.f`. */
  function InsertByFrame(s: seq<Keyframe>, k: Keyframe): (r: seq<Keyframe>)
    requires SortedByFrame(s)
    ensures SortedByFrame(r)
    ensures multiset(r) == multiset(s) + multiset{k}
    decreases |s|
  {
    if s == [] then [k]
    else if s[|s| - 1].f <= k.f then
      AppendSorted(s, k);
      s + [k]
    else
      var init := s[..|s| - 1];
      var last := s[|s| - 1];
      assert s == init + [last];
      var r0 := InsertByFrame(init, k);
      assert forall e :: e in r0 ==> e.f <= last.f by {
        forall e | e in r0 ensures e.f <= last.f {
          assert e in multiset(r0);
          if e != k {
            assert e in multiset(init);
            var i :| 0 <= i < |init| && init[i] == e;
            assert s[i] == e;
          }
        }
      }
      AppendSorted(r0, last);
      r0 + [last]
  }

  lemma AppendSorted(s: seq<Keyframe>, k: Keyframe)
    requires SortedByFrame(s)
    requires forall e :: e in s ==> e.f <= k.f
    ensures SortedByFrame(s + [k])
  {
    var t := s + [k];
    forall i, j | 0 <= i < j < |t| ensures t[i].f <= t[j].f {
      if j == |s| {
        assert t[i] == s[i];
        assert s[i] in s;
      }
    }
  }

  /** `kfs`: the keyframes sorted ascending by frame index, keeping every entry. */
  function SortByFrame(s: seq<Keyframe>): (r: seq<Keyframe>)
    ensures SortedByFrame(r)
    ensures multiset(r) == multiset(s)
    decreases |s|
  {
    if s == [] then []
    else
      var init := s[..|s| - 1];
      assert s == init + [s[|s| - 1]];
      InsertByFrame(SortByFrame(init), s[|s| - 1])
  }

  /** Sorting a list that is already sorted leaves it as it is. */
  lemma {:induction false} SortSortedIsIdentity(s: seq<Keyframe>)
    requires SortedByFrame(s)
    ensures SortByFrame(s) == s
    decreases |s|
  {
    if s != [] {
      var init := s[..|s| - 1];
      var last := s[|s| - 1];
      assert s == init + [last];
      SortedPrefix(s);
      SortSortedIsIdentity(init);
      assert SortByFrame(s) == InsertByFrame(SortByFrame(init), last);
      if init != [] {
        assert init[|init| - 1] == s[|s| - 2];
      }
      InsertAtEnd(init, last);
    }
  }

  lemma InsertAtEnd(s: seq<Keyframe>, k: Keyframe)
    requires SortedByFrame(s) && (s == [] || s[|s| - 1].f <= k.f)
    ensures InsertByFrame(s, k) == s + [k]
  {
  }

  lemma SortedPrefix(s: seq<Keyframe>)
    requires SortedByFrame(s) && s != []
    ensures SortedByFrame(s[..|s| - 1])
  {
    var init := s[..|s| - 1];
    forall i, j | 0 <= i < j < |init| ensures init[i].f <= init[j].f {
      assert init[i] == s[i] && init[j] == s[j];
    }
  }

  lemma {:induction false} InsertKeepsUnique(s: seq<Keyframe>, k: Keyframe)
    requires SortedByFrame(s) && UniqueFrames(s) && NoneAt(s, k.f)
    ensures UniqueFrames(InsertByFrame(s, k))
    decreases |s|
  {
    if s == [] {
    } else if s[|s| - 1].f <= k.f {
      UniqueAppend(s, k);
    } else {
      var init := s[..|s| - 1];
      var last := s[|s| - 1];
      assert s == init + [last];
      assert SortedByFrame(init) && UniqueFrames(init) by {
        forall i, j | 0 <= i < j < |init| ensures init[i].f <= init[j].f && init[i].f != init[j].f {
          assert init[i] == s[i] && init[j] == s[j];
        }
      }
      assert NoneAt(init, k.f) by {
        forall e | e in init ensures e.f != k.f { assert e in s; }
      }
      InsertKeepsUnique(init, k);
      var r := InsertByFrame(init, k);
      assert NoneAt(r, last.f) by {
        forall e | e in r ensures e.f != last.f {
          assert e in multiset(r);
          if e != k {
            assert e in multiset(init);
            var i :| 0 <= i < |init| && init[i] == e;
            assert s[i] == e;
          }
        }
      }
      UniqueAppend(r, last);
    }
  }

  lemma UniqueAppend(s: seq<Keyframe>, k: Keyframe)
    requires UniqueFrames(s) && NoneAt(s, k.f)
    ensures UniqueFrames(s + [k])
  {
    var t := s + [k];
    forall i, j | 0 <= i < j < |t| ensures t[i].f != t[j].f {
      if j == |s| {
        assert t[i] == s[i];
        assert s[i] in s;
      }
    }
  }

  /** Sorting preserves the uniqueness of frame indices. */
  lemma {:induction false} SortKeepsUnique(s: seq<Keyframe>)
    requires UniqueFrames(s)
    ensures UniqueFrames(SortByFrame(s))
    decreases |s|
  {
    if s != [] {
      var init := s[..|s| - 1];
      var last := s[|s| - 1];
      assert UniqueFrames(init) by {
        forall i, j | 0 <= i < j < |init| ensures init[i].f != init[j].f {
          assert init[i] == s[i] && init[j] == s[j];
        }
      }
      SortKeepsUnique(init);
      assert NoneAt(SortByFrame(init), last.f) by {
        forall e | e in SortByFrame(init) ensures e.f != last.f {
          assert e in multiset(SortByFrame(init));
          assert e in multiset(init);
          var i :| 0 <= i < |init| && init[i] == e;
          assert s[i] == e;
        }
      }
      InsertKeepsUnique(SortByFrame(init), last);
    }
  }

  // ---------------------------------------------------------------------------
  // filter((k) => k.f !== f)
  // ---------------------------------------------------------------------------

  /** The entries of `s` whose frame index is not `f`, in their original order. */
  function WithoutFrame(s: seq<Keyframe>, f: int): (r: seq<Keyframe>)
    ensures forall k :: multiset(r)[k] == (if k.f == f then 0 else multiset(s)[k])
    ensures NoneAt(r, f)
    ensures SortedByFrame(s) ==> SortedByFrame(r)
    ensures UniqueFrames(s) ==> UniqueFrames(r)
    decreases |s|
  {
    if s == [] then []
    else
      var rest := WithoutFrame(s[1..], f);
      var r := if s[0].f == f then rest else [s[0]] + rest;
      WithoutFrameStep(s, f, rest, r);
      r
  }

  lemma WithoutFrameStep(s: seq<Keyframe>, f: int, rest: seq<Keyframe>, r: seq<Keyframe>)
    requires s != []
    requires forall k :: multiset(rest)[k] == (if k.f == f then 0 else multiset(s[1..])[k])
    requires NoneAt(rest, f)
    requires SortedByFrame(s[1..]) ==> SortedByFrame(rest)
    requires UniqueFrames(s[1..]) ==> UniqueFrames(rest)
    requires r == if s[0].f == f then rest else [s[0]] + rest
    ensures forall k :: multiset(r)[k] == (if k.f == f then 0 else multiset(s)[k])
    ensures NoneAt(r, f)
    ensures SortedByFrame(s) ==> SortedByFrame(r)
    ensures UniqueFrames(s) ==> UniqueFrames(r)
  {
    WithoutFrameCount(s, f, rest, r);
    var t := s[1..];
    assert forall k :: k in rest ==> k in t by {
      forall k | k in rest ensures k in t {
        assert k in multiset(rest);
      }
    }
    if SortedByFrame(s) {
      PrependSorted(s, rest);
    }
    if UniqueFrames(s) {
      PrependUnique(s, rest);
    }
  }

  lemma WithoutFrameCount(s: seq<Keyframe>, f: int, rest: seq<Keyframe>, r: seq<Keyframe>)
    requires s != []
    requires forall k :: multiset(rest)[k] == (if k.f == f then 0 else multiset(s[1..])[k])
    requires NoneAt(rest, f)
    requires r == if s[0].f == f then rest else [s[0]] + rest
    ensures forall k :: multiset(r)[k] == (if k.f == f then 0 else multiset(s)[k])
    ensures NoneAt(r, f)
  {
    assert s == [s[0]] + s[1..];
    assert multiset(s) == multiset{s[0]} + multiset(s[1..]);
  }

  lemma PrependSorted(s: seq<Keyframe>, rest: seq<Keyframe>)
    requires s != [] && SortedByFrame(s)
    requires forall k :: k in rest ==> k in s[1..]
    requires SortedByFrame(s[1..]) ==> SortedByFrame(rest)
    ensures SortedByFrame([s[0]] + rest) && SortedByFrame(rest)
  {
    var t := s[1..];
    assert SortedByFrame(t) by {
      forall i, j | 0 <= i < j < |t| ensures t[i].f <= t[j].f { assert t[i] == s[i + 1] && t[j] == s[j + 1]; }
    }
    var u := [s[0]] + rest;
    forall i, j | 0 <= i < j < |u| ensures u[i].f <= u[j].f {
      if i == 0 {
        var e := rest[j - 1];
        assert e in t;
        var m :| 0 <= m < |t| && t[m] == e;
        assert s[m + 1] == e;
      } else {
        assert u[i] == rest[i - 1] && u[j] == rest[j - 1];
      }
    }
  }

  lemma PrependUnique(s: seq<Keyframe>, rest: seq<Keyframe>)
    requires s != [] && UniqueFrames(s)
    requires forall k :: k in rest ==> k in s[1..]
    requires UniqueFrames(s[1..]) ==> UniqueFrames(rest)
    ensures UniqueFrames([s[0]] + rest) && UniqueFrames(rest)
  {
    var t := s[1..];
    assert UniqueFrames(t) by {
      forall i, j | 0 <= i < j < |t| ensures t[i].f != t[j].f { assert t[i] == s[i + 1] && t[j] == s[j + 1]; }
    }
    var u := [s[0]] + rest;
    forall i, j | 0 <= i < j < |u| ensures u[i].f != u[j].f {
      if i == 0 {
        var e := rest[j - 1];
        assert e in t;
        var m :| 0 <= m < |t| && t[m] == e;
        assert s[m + 1] == e;
      } else {
        assert u[i] == rest[i - 1] && u[j] == rest[j - 1];
      }
    }
  }

  /** `upsertKF`: drop every keyframe at `f`, add `{f, x, y}`, sort again. */
  function UpsertKeyframe(ks: seq<Keyframe>, f: int, x: int, y: int): (r: seq<Keyframe>)
    ensures SortedByFrame(r)
    ensures Keyframe(f, x, y) in r
    ensures forall k :: multiset(r)[k] == (if k == Keyframe(f, x, y) then 1 else if k.f == f then 0 else multiset(ks)[k])
    ensures forall k :: k in r && k.f == f ==> k == Keyframe(f, x, y)
    ensures UniqueFrames(ks) ==> UniqueFrames(r)
  {
    var kept := WithoutFrame(SortByFrame(ks), f);
    var r := SortByFrame(kept + [Keyframe(f, x, y)]);
    UpsertContents(ks, kept, Keyframe(f, x, y), r);
    UpsertKeepsUnique(ks, kept, Keyframe(f, x, y));
    r
  }

  lemma UpsertContents(ks: seq<Keyframe>, kept: seq<Keyframe>, k0: Keyframe, r: seq<Keyframe>)
    requires kept == WithoutFrame(SortByFrame(ks), k0.f) && r == SortByFrame(kept + [k0])
    ensures k0 in r
    ensures forall k :: multiset(r)[k] == (if k == k0 then 1 else if k.f == k0.f then 0 else multiset(ks)[k])
    ensures forall k :: k in r && k.f == k0.f ==> k == k0
  {
    var f, x, y := k0.f, k0.x, k0.y;
    assert multiset(r) == multiset(kept) + multiset{Keyframe(f, x, y)};
    assert Keyframe(f, x, y) in multiset(r);
    assert forall k :: k in r && k.f == f ==> k == Keyframe(f, x, y) by {
      forall k | k in r && k.f == f ensures k == Keyframe(f, x, y) {
        assert k in multiset(r);
        assert multiset(kept)[k] == 0;
      }
    }
  }

  lemma UpsertKeepsUnique(ks: seq<Keyframe>, kept: seq<Keyframe>, k: Keyframe)
    requires kept == WithoutFrame(SortByFrame(ks), k.f)
    ensures UniqueFrames(ks) ==> UniqueFrames(SortByFrame(kept + [k]))
  {
    if UniqueFrames(ks) {
      SortKeepsUnique(ks);
      var s := kept + [k];
      assert s[..|s| - 1] == kept;
      SortSortedIsIdentity(kept);
      assert SortByFrame(s) == InsertByFrame(kept, k);
      InsertKeepsUnique(kept, k);
    }
  }

  lemma SortKeepsUniqueIf(s: seq<Keyframe>)
    ensures UniqueFrames(s) ==> UniqueFrames(SortByFrame(s))
  {
    if UniqueFrames(s) { SortKeepsUnique(s); }
  }

  /** `removeKF`: the sorted keyframes without those at `f`. */
  function RemoveKeyframe(ks: seq<Keyframe>, f: int): (r: seq<Keyframe>)
    ensures SortedByFrame(r)
    ensures forall k :: multiset(r)[k] == (if k.f == f then 0 else multiset(ks)[k])
    ensures UniqueFrames(ks) ==> UniqueFrames(r)
  {
    SortKeepsUniqueIf(ks);
    WithoutFrame(SortByFrame(ks), f)
  }

  // ---------------------------------------------------------------------------
  // interp: Math.round(a + (b - a) * t) with t = num / den
  // ---------------------------------------------------------------------------

  /** `Math.round(n / d)` for `d > 0`, that is floor(n / d + 1/2): ties go toward +infinity. */
  function RoundDiv(n: int, d: int): (r: int)
    requires d > 0
    ensures 2 * d * r <= 2 * n + d < 2 * d * (r + 1)
  {
    (2 * n + d) / (2 * d)
  }

  /** `interp(a, b, num / den)`, computed exactly. */
  function Interp(a: int, b: int, num: int, den: int): (r: int)
    requires den > 0
    ensures 0 <= num <= den ==> (a <= b ==> a <= r <= b) && (b <= a ==> b <= r <= a)
    ensures num == 0 ==> r == a
    ensures num == den ==> r == b
  {
    InterpFacts(a, b, num, den);
    RoundDiv(a * den + (b - a) * num, den)
  }

  lemma InterpFacts(a: int, b: int, num: int, den: int)
    requires den > 0
    ensures var r := RoundDiv(a * den + (b - a) * num, den);
      (0 <= num <= den ==> (a <= b ==> a <= r <= b) && (b <= a ==> b <= r <= a)) &&
      (num == 0 ==> r == a) &&
      (num == den ==> r == b)
  {
    var n := a * den + (b - a) * num;
    var r := RoundDiv(n, den);
    if 0 <= num <= den {
      InterpBetween(a, b, num, den, n, r);
    }
    if num == 0 { RoundDivExact(a, den); }
    if num == den { assert n == b * den; RoundDivExact(b, den); }
  }

  lemma RoundDivExact(a: int, d: int)
    requires d > 0
    ensures RoundDiv(a * d, d) == a
  {
    assert 2 * (a * d) + d == a * (2 * d) + d;
    DivUnique(2 * (a * d) + d, 2 * d, a, d);
  }

  lemma InterpBetween(a: int, b: int, num: int, den: int, n: int, r: int)
    requires den > 0 && 0 <= num <= den
    requires n == a * den + (b - a) * num
    requires 2 * den * r <= 2 * n + den < 2 * den * (r + 1)
    ensures a <= b ==> a <= r <= b
    ensures b <= a ==> b <= r <= a
  {
    NumeratorBetween(a, b, num, den);
    if a <= b {
      RoundBetween(n, den, a, b, r);
    } else {
      RoundBetween(n, den, b, a, r);
    }
  }

  /** `a * den + (b - a) * num` lies between `a * den` and `b * den` when `0 <= num <= den`. */
  lemma NumeratorBetween(a: int, b: int, num: int, den: int)
    requires den > 0 && 0 <= num <= den
    ensures a <= b ==> a * den <= a * den + (b - a) * num <= b * den
    ensures b <= a ==> b * den <= a * den + (b - a) * num <= a * den
  {
    if a <= b {
      MulLeft(b - a, 0, num);
      MulLeft(b - a, num, den);
      assert (b - a) * den == b * den - a * den;
    } else {
      MulLeft(a - b, 0, num);
      MulLeft(a - b, num, den);
      assert (b - a) * num == -((a - b) * num);
      assert (a - b) * den == a * den - b * den;
    }
  }

  /** The rounded quotient of a numerator between `lo * den` and `hi * den` lies between `lo` and `hi`. */
  lemma RoundBetween(n: int, den: int, lo: int, hi: int, r: int)
    requires den > 0 && lo * den <= n <= hi * den
    requires 2 * den * r <= 2 * n + den < 2 * den * (r + 1)
    ensures lo <= r <= hi
  {
    assert 2 * den * lo == 2 * (lo * den);
    assert 2 * den * (hi + 1) == 2 * (hi * den) + 2 * den;
    if r < lo {
      MulLeft(2 * den, r + 1, lo);
    }
    if r > hi {
      MulLeft(2 * den, hi + 1, r);
    }
  }

  lemma MulLeft(k: int, a: int, b: int)
    requires 0 <= k && a <= b
    ensures k * a <= k * b
  {
    assert k * b - k * a == k * (b - a);
  }

  lemma DivUnique(n: int, q: int, a: int, m: int)
    requires q > 0 && 0 <= m < q && n == a * q + m
    ensures n / q == a
  {
    var r := n / q;
    assert n == q * r + n % q;
    assert q * (r + 1) == q * r + q;
    assert q * (a + 1) == q * a + q;
    assert a * q == q * a;
    if r < a {
      MulLeft(q, r + 1, a);
    } else if r > a {
      MulLeft(q, a + 1, r);
    }
  }

  // ---------------------------------------------------------------------------
  // getOffsetAt
  // ---------------------------------------------------------------------------

  /** `list.find((k) => k.f === f)`, as an index. */
  function FirstAt(ks: seq<Keyframe>, f: int): (r: Option<nat>)
    ensures r.Some? ==> r.value < |ks| && ks[r.value].f == f && forall j :: 0 <= j < r.value ==> ks[j].f != f
    ensures r.None? ==> forall j :: 0 <= j < |ks| ==> ks[j].f != f
    decreases |ks|
  {
    if ks == [] then None
    else if ks[0].f == f then Some(0)
    else match FirstAt(ks[1..], f)
      case None => None
      case Some(i) => Some(i + 1)
  }

  /** `list.find((k) => k.f > f)`, as an index. */
  function FirstAfter(ks: seq<Keyframe>, f: int): (r: Option<nat>)
    ensures r.Some? ==> r.value < |ks| && ks[r.value].f > f && forall j :: 0 <= j < r.value ==> ks[j].f <= f
    ensures r.None? ==> forall j :: 0 <= j < |ks| ==> ks[j].f <= f
    decreases |ks|
  {
    if ks == [] then None
    else if ks[0].f > f then Some(0)
    else match FirstAfter(ks[1..], f)
      case None => None
      case Some(i) => Some(i + 1)
  }

  /** `[...list].filter((k) => k.f < f).pop()`: the last entry before `f`, as an index. */
  function LastBefore(ks: seq<Keyframe>, f: int): (r: Option<nat>)
    ensures r.Some? ==> r.value < |ks| && ks[r.value].f < f && forall j :: r.value < j < |ks| ==> ks[j].f >= f
    ensures r.None? ==> forall j :: 0 <= j < |ks| ==> ks[j].f >= f
    decreases |ks|
  {
    if ks == [] then None
    else if ks[|ks| - 1].f < f then Some(|ks| - 1)
    else LastBefore(ks[..|ks| - 1], f)
  }

  /** `l.offsets[f] || {x: 0, y: 0}` */
  function OffsetEntry(offsets: seq<Point>, f: int): Point {
    if 0 <= f < |offsets| then offsets[f] else ORIGIN
  }

  /** `getOffsetAt(l, f)` for a layer with keyframes `ks` and per-frame offsets `offsets`. */
  function OffsetAt(ks: seq<Keyframe>, offsets: seq<Point>, f: int): Point {
    OffsetInList(SortByFrame(ks), offsets, f)
  }

  /** The search part of `getOffsetAt`, over the already sorted keyframe list. */
  function OffsetInList(list: seq<Keyframe>, offsets: seq<Point>, f: int): Point {
    if |list| == 0 then OffsetEntry(offsets, f)
    else match FirstAt(list, f)
      case Some(i) => Point(list[i].x, list[i].y)
      case None =>
        match (LastBefore(list, f), FirstAfter(list, f))
        case (None, Some(a)) => Point(list[a].x, list[a].y)
        case (Some(b), None) => Point(list[b].x, list[b].y)
        case (Some(b), Some(a)) =>
          var before := list[b];
          var after := list[a];
          Point(Interp(before.x, after.x, f - before.f, after.f - before.f),
                Interp(before.y, after.y, f - before.f, after.f - before.f))
        case (None, None) => ORIGIN
  }

  // ---------------------------------------------------------------------------
  // The five cases of getOffsetAt, stated over the keyframe entries themselves
  // ---------------------------------------------------------------------------

  lemma InSorted(ks: seq<Keyframe>, k: Keyframe) returns (i: nat)
    requires k in ks
    ensures i < |SortByFrame(ks)| && SortByFrame(ks)[i] == k
  {
    assert k in multiset(ks);
    assert k in multiset(SortByFrame(ks));
    i :| 0 <= i < |SortByFrame(ks)| && SortByFrame(ks)[i] == k;
  }

  lemma FromSorted(ks: seq<Keyframe>, i: nat)
    requires i < |SortByFrame(ks)|
    ensures SortByFrame(ks)[i] in ks
  {
    assert SortByFrame(ks)[i] in multiset(SortByFrame(ks));
  }

  /** No keyframes: the per-frame offset, or (0,0) past the end of the offsets array. */
  lemma OffsetWithoutKeyframes(offsets: seq<Point>, f: int)
    ensures OffsetAt([], offsets, f) == if 0 <= f < |offsets| then offsets[f] else ORIGIN
  {
  }

  /** A keyframe exactly at `f` gives its own value. */
  lemma OffsetAtKeyframe(ks: seq<Keyframe>, offsets: seq<Point>, k: Keyframe)
    requires UniqueFrames(ks) && k in ks
    ensures OffsetAt(ks, offsets, k.f) == Point(k.x, k.y)
  {
    var list := SortByFrame(ks);
    var j := InSorted(ks, k);
    SortKeepsUnique(ks);
    var i := FirstAt(list, k.f).value;
    assert i == j;
  }

  /** Only later keyframes: the earliest one's value is held backward. */
  lemma OffsetBeforeFirst(ks: seq<Keyframe>, offsets: seq<Point>, k: Keyframe, f: int)
    requires k in ks && f < k.f
    requires forall k' :: k' in ks && k' != k ==> k.f < k'.f
    ensures OffsetAt(ks, offsets, f) == Point(k.x, k.y)
  {
    var list := SortByFrame(ks);
    var j := InSorted(ks, k);
    FromSorted(ks, 0);
    assert list[0].f <= list[j].f;
    assert list[0] == k;
    forall i | 0 <= i < |list| ensures k.f <= list[i].f {
      assert list[0].f <= list[i].f;
    }
    OffsetHeldBackward(list, offsets, f, k);
  }

  lemma OffsetHeldBackward(list: seq<Keyframe>, offsets: seq<Point>, f: int, k: Keyframe)
    requires list != [] && list[0] == k && f < k.f
    requires forall i :: 0 <= i < |list| ==> k.f <= list[i].f
    ensures OffsetInList(list, offsets, f) == Point(k.x, k.y)
  {
    assert FirstAt(list, f).None? && LastBefore(list, f).None?;
    assert FirstAfter(list, f) == Some(0);
  }

  /** Only earlier keyframes: the latest one's value is held forward. */
  lemma OffsetAfterLast(ks: seq<Keyframe>, offsets: seq<Point>, k: Keyframe, f: int)
    requires k in ks && k.f < f
    requires forall k' :: k' in ks && k' != k ==> k'.f < k.f
    ensures OffsetAt(ks, offsets, f) == Point(k.x, k.y)
  {
    var list := SortByFrame(ks);
    var j := InSorted(ks, k);
    var n := |list| - 1;
    FromSorted(ks, n);
    assert list[j].f <= list[n].f;
    assert list[n] == k;
    forall i | 0 <= i < |list| ensures list[i].f <= k.f {
      FromSorted(ks, i);
    }
    OffsetHeldForward(list, offsets, f, k);
  }

  lemma OffsetHeldForward(list: seq<Keyframe>, offsets: seq<Point>, f: int, k: Keyframe)
    requires list != [] && list[|list| - 1] == k && k.f < f
    requires forall i :: 0 <= i < |list| ==> list[i].f <= k.f
    ensures OffsetInList(list, offsets, f) == Point(k.x, k.y)
  {
    assert FirstAt(list, f).None? && FirstAfter(list, f).None?;
    assert LastBefore(list, f) == Some(|list| - 1);
  }

  /** In a sorted list, the neighbours of `f` are found by the two searches. */
  lemma NeighboursInSorted(list: seq<Keyframe>, kb: Keyframe, ka: Keyframe, f: int, jb: nat, ja: nat)
    requires SortedByFrame(list) && jb < |list| && ja < |list| && list[jb] == kb && list[ja] == ka
    requires kb.f < f < ka.f
    requires forall i :: 0 <= i < |list| ==> list[i] == kb || list[i] == ka || list[i].f < kb.f || list[i].f > ka.f
    ensures FirstAt(list, f).None?
    ensures LastBefore(list, f).Some? && list[LastBefore(list, f).value] == kb
    ensures FirstAfter(list, f).Some? && list[FirstAfter(list, f).value] == ka
  {
    var b := LastBefore(list, f).value;
    var a := FirstAfter(list, f).value;
    assert jb <= b;
    assert list[jb].f <= list[b].f;
    assert a <= ja;
    assert list[a].f <= list[ja].f;
  }

  /** Locates two neighbouring keyframes `kb < f < ka` in the sorted list. */
  lemma Neighbours(ks: seq<Keyframe>, kb: Keyframe, ka: Keyframe, f: int)
    requires kb in ks && ka in ks && kb.f < f < ka.f
    requires forall k :: k in ks && k != kb && k != ka ==> k.f < kb.f || k.f > ka.f
    ensures FirstAt(SortByFrame(ks), f).None?
    ensures LastBefore(SortByFrame(ks), f).Some? && SortByFrame(ks)[LastBefore(SortByFrame(ks), f).value] == kb
    ensures FirstAfter(SortByFrame(ks), f).Some? && SortByFrame(ks)[FirstAfter(SortByFrame(ks), f).value] == ka
  {
    var list := SortByFrame(ks);
    var jb := InSorted(ks, kb);
    var ja := InSorted(ks, ka);
    forall i | 0 <= i < |list| ensures list[i] == kb || list[i] == ka || list[i].f < kb.f || list[i].f > ka.f {
      FromSorted(ks, i);
    }
    NeighboursInSorted(list, kb, ka, f, jb, ja);
  }

  /** Between two neighbouring keyframes the offset is interpolated from them. */
  lemma OffsetBetween(ks: seq<Keyframe>, offsets: seq<Point>, kb: Keyframe, ka: Keyframe, f: int)
    requires kb in ks && ka in ks && kb.f < f < ka.f
    requires forall k :: k in ks && k != kb && k != ka ==> k.f < kb.f || k.f > ka.f
    ensures OffsetAt(ks, offsets, f) ==
      Point(Interp(kb.x, ka.x, f - kb.f, ka.f - kb.f), Interp(kb.y, ka.y, f - kb.f, ka.f - kb.f))
  {
    var list := SortByFrame(ks);
    Neighbours(ks, kb, ka, f);
    OffsetInterior(list, offsets, f, kb, ka);
  }

  /** The interpolating case of getOffsetAt, by the two search results. */
  lemma OffsetInterior(list: seq<Keyframe>, offsets: seq<Point>, f: int, kb: Keyframe, ka: Keyframe)
    requires FirstAt(list, f).None?
    requires LastBefore(list, f).Some? && list[LastBefore(list, f).value] == kb
    requires FirstAfter(list, f).Some? && list[FirstAfter(list, f).value] == ka
    requires kb.f < f < ka.f
    ensures OffsetInList(list, offsets, f) ==
      Point(Interp(kb.x, ka.x, f - kb.f, ka.f - kb.f), Interp(kb.y, ka.y, f - kb.f, ka.f - kb.f))
  {
  }

  /** Between two neighbouring keyframes each coordinate lies between the two endpoint values. */
  lemma OffsetBetweenBounded(ks: seq<Keyframe>, offsets: seq<Point>, kb: Keyframe, ka: Keyframe, f: int)
    requires kb in ks && ka in ks && kb.f < f < ka.f
    requires forall k :: k in ks && k != kb && k != ka ==> k.f < kb.f || k.f > ka.f
    ensures var r := OffsetAt(ks, offsets, f);
      (kb.x <= ka.x ==> kb.x <= r.x <= ka.x) && (ka.x <= kb.x ==> ka.x <= r.x <= kb.x) &&
      (kb.y <= ka.y ==> kb.y <= r.y <= ka.y) && (ka.y <= kb.y ==> ka.y <= r.y <= kb.y)
  {
    OffsetBetween(ks, offsets, kb, ka, f);
  }

  /** Each axis of `p` lies between the values two of the keyframes have on that axis. */
  predicate Spanned(ks: seq<Keyframe>, p: Point) {
    && (exists lo, hi :: lo in ks && hi in ks && lo.x <= p.x <= hi.x)
    && (exists lo, hi :: lo in ks && hi in ks && lo.y <= p.y <= hi.y)
  }

  /**
   * Once a layer has keyframes its offset never leaves the range their values
   * span: holding and rounded interpolation only ever produce values between
   * two keyframes'.
   */
  lemma OffsetWithinKeyframes(ks: seq<Keyframe>, offsets: seq<Point>, f: int)
    requires |ks| > 0
    ensures Spanned(ks, OffsetAt(ks, offsets, f))
  {
    var list := SortByFrame(ks);
    NonEmptyPermutation(ks, list);
    ListSpanned(list, offsets, f);
    SpannedPermutation(list, ks, OffsetInList(list, offsets, f));
  }

  lemma NonEmptyPermutation(ks: seq<Keyframe>, list: seq<Keyframe>)
    requires |ks| > 0 && multiset(list) == multiset(ks)
    ensures |list| > 0
  {
    assert ks[0] in multiset(ks);
  }

  /** What a list spans depends only on its entries. */
  lemma SpannedPermutation(a: seq<Keyframe>, b: seq<Keyframe>, p: Point)
    requires multiset(a) == multiset(b) && Spanned(a, p)
    ensures Spanned(b, p)
  {
    var lx, hx :| lx in a && hx in a && lx.x <= p.x <= hx.x;
    var ly, hy :| ly in a && hy in a && ly.y <= p.y <= hy.y;
    assert lx in multiset(a) && hx in multiset(a) && ly in multiset(a) && hy in multiset(a);
    assert lx in b && hx in b && ly in b && hy in b;
  }

  lemma ListSpanned(list: seq<Keyframe>, offsets: seq<Point>, f: int)
    requires |list| > 0
    ensures Spanned(list, OffsetInList(list, offsets, f))
  {
    var r := OffsetInList(list, offsets, f);
    match FirstAt(list, f)
    case Some(i) =>
      assert list[i] in list && r == Point(list[i].x, list[i].y);
    case None =>
      if LastBefore(list, f).Some? && FirstAfter(list, f).Some? {
        var kb := list[LastBefore(list, f).value];
        var ka := list[FirstAfter(list, f).value];
        assert kb in list && ka in list;
        assert r.x == Interp(kb.x, ka.x, f - kb.f, ka.f - kb.f);
        assert r.y == Interp(kb.y, ka.y, f - kb.f, ka.f - kb.f);
      } else if LastBefore(list, f).Some? {
        var kb := list[LastBefore(list, f).value];
        assert kb in list && r == Point(kb.x, kb.y);
      } else {
        assert list[0].f >= f && list[0].f != f;
        var ka := list[FirstAfter(list, f).value];
        assert ka in list && r == Point(ka.x, ka.y);
      }
  }

  /** After `upsertKF(f, x, y)` the offset at `f` is `(x, y)`. */
  lemma UpsertSetsOffset(ks: seq<Keyframe>, offsets: seq<Point>, f: int, x: int, y: int)
    ensures OffsetAt(UpsertKeyframe(ks, f, x, y), offsets, f) == Point(x, y)
  {
    var r := UpsertKeyframe(ks, f, x, y);
    SortSortedIsIdentity(r);
    OffsetFound(r, offsets, Keyframe(f, x, y));
  }

  lemma OffsetFound(list: seq<Keyframe>, offsets: seq<Point>, k: Keyframe)
    requires k in list
    requires forall e :: e in list && e.f == k.f ==> e == k
    ensures OffsetInList(list, offsets, k.f) == Point(k.x, k.y)
  {
    var j :| 0 <= j < |list| && list[j] == k;
    assert FirstAt(list, k.f).Some?;
    var i := FirstAt(list, k.f).value;
    assert list[i] in list;
  }

  /** The three keyframe scenario: keyframes at 2 -> (0,0) and 8 -> (10,0). */
  lemma ExampleScenario(offsets: seq<Point>)
    ensures var ks := [Keyframe(2, 0, 0), Keyframe(8, 10, 0)];
      OffsetAt(ks, offsets, 5) == Point(5, 0) &&
      OffsetAt(ks, offsets, 0) == Point(0, 0) &&
      OffsetAt(ks, offsets, 10) == Point(10, 0)
  {
    var ks := [Keyframe(2, 0, 0), Keyframe(8, 10, 0)];
    OffsetBetween(ks, offsets, ks[0], ks[1], 5);
    OffsetBeforeFirst(ks, offsets, ks[0], 0);
    OffsetAfterLast(ks, offsets, ks[1], 10);
  }

  /** `Math.round` sends ties toward +infinity: halfway between 0 and -5 is -2.5, which becomes -2. */
  lemma RoundingTieExample()
    ensures Interp(0, -5, 1, 2) == -2
  {
  }
}
