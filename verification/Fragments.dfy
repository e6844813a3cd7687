/** Where a fragment lands among its neighbours, and what that does to the bytes they hold. */
module Fragments {

  /** A uint8. */
  type Byte = b: int | 0 <= b < 256

  /** An address inside a block of memory, or NULL. */
  datatype Pointer = Null | At(block: array<Byte>, offset: nat)

  datatype Fragment = Fragment(ptr: Pointer, len: nat)

  predicate InRange(off: int, n: nat) {
    0 <= off < n
  }

  /** x goes to place off: into it if it is free, before its holder if not, and to the end if
      there is no such place. */
  function Placed<T>(s: seq<T>, x: T, off: int, free: bool): seq<T> {
    if InRange(off, |s|) then if free then s[off := x] else s[..off] + [x] + s[off..]
    else s + [x]
  }

  /** The place that x gets. */
  function Place(off: int, n: nat): (p: nat)
    ensures p <= n
  {
    if InRange(off, n) then off else n
  }

  /** Where the element at i comes from, if it is not x. */
  function Source(i: nat, p: nat, free: bool): int {
    if i < p || free then i else i - 1
  }

  /** s' is s with x in place off instead of what was there if that place was free, before it if
      not, and at the end if there is no such place. */
  ghost predicate PutIn<T>(s: seq<T>, x: T, off: int, free: bool, s': seq<T>) {
    && (!(0 <= off < |s|) ==> s' == s + [x])
    && (0 <= off < |s| && free ==>
         |s'| == |s| && s'[off] == x && s'[..off] == s[..off] && s'[off + 1..] == s[off + 1..])
    && (0 <= off < |s| && !free ==>
         |s'| == |s| + 1 && s'[off] == x && s'[..off] == s[..off] && s'[off + 1..] == s[off..])
  }

  lemma PlacedIsPut<T>(s: seq<T>, x: T, off: int, free: bool)
    ensures PutIn(s, x, off, free, Placed(s, x, off, free))
  {
  }

  lemma PlacedAt<T>(s: seq<T>, x: T, off: int, free: bool, i: nat)
    requires i < |Placed(s, x, off, free)|
    ensures i != Place(off, |s|) ==> 0 <= Source(i, Place(off, |s|), free && InRange(off, |s|)) < |s|
    ensures Placed(s, x, off, free)[i] ==
            if i == Place(off, |s|) then x else s[Source(i, Place(off, |s|), free && InRange(off, |s|))]
  {
  }

  lemma PlacedMultiset<T>(s: seq<T>, x: T, off: int, free: bool)
    ensures !(free && InRange(off, |s|)) ==> multiset(Placed(s, x, off, free)) == multiset(s) + multiset{x}
    ensures free && InRange(off, |s|) ==>
      multiset(Placed(s, x, off, free)) == multiset(s) - multiset{s[off]} + multiset{x}
  {
    if InRange(off, |s|) {
      assert s == s[..off] + s[off..];
    }
  }

  /** What is in a place that x moves into. */
  function Gone<T>(s: seq<T>, off: int, free: bool): seq<T> {
    if free && InRange(off, |s|) then [s[off]] else []
  }

  /** What comes after x. */
  function Behind<T>(s: seq<T>, off: int, free: bool): seq<T> {
    if free && InRange(off, |s|) then s[off + 1..] else s[Place(off, |s|)..]
  }

  lemma PlacedCuts<T>(s: seq<T>, x: T, off: int, free: bool)
    ensures s == s[..Place(off, |s|)] + Gone(s, off, free) + Behind(s, off, free)
    ensures Placed(s, x, off, free) == s[..Place(off, |s|)] + [x] + Behind(s, off, free)
  {
  }

  function TotalLen(fs: seq<Fragment>): nat {
    if fs == [] then 0 else TotalLen(fs[..|fs| - 1]) + fs[|fs| - 1].len
  }

  lemma {:induction false} TotalLenSplits(a: seq<Fragment>, b: seq<Fragment>)
    ensures TotalLen(a + b) == TotalLen(a) + TotalLen(b)
  {
    if b == [] {
      assert a + b == a;
    } else {
      TotalLenSplits(a, b[..|b| - 1]);
      assert (a + b)[..|a + b| - 1] == a + b[..|b| - 1];
    }
  }

  /** Whether off names a free place. */
  predicate IsFree(fs: seq<Fragment>, off: int) {
    InRange(off, |fs|) && fs[off].ptr == Null
  }

  lemma TotalLenOfThree(a: seq<Fragment>, b: seq<Fragment>, c: seq<Fragment>)
    ensures TotalLen(a + b + c) == TotalLen(a) + TotalLen(b) + TotalLen(c)
  {
    TotalLenSplits(a + b, c);
    TotalLenSplits(a, b);
  }

  lemma PlacedTotalLen(fs: seq<Fragment>, f: Fragment, off: int)
    requires IsFree(fs, off) ==> fs[off].len == 0
    ensures TotalLen(Placed(fs, f, off, IsFree(fs, off))) == TotalLen(fs) + f.len
  {
    var before := fs[..Place(off, |fs|)];
    var gone, behind := Gone(fs, off, IsFree(fs, off)), Behind(fs, off, IsFree(fs, off));
    PlacedCuts(fs, f, off, IsFree(fs, off));
    TotalLenOfThree(before, gone, behind);
    TotalLenOfThree(before, [f], behind);
    assert TotalLen([f]) == f.len && TotalLen(gone) == 0;
  }

  /** The bytes of all places, one after the other. */
  function Flatten(cs: seq<seq<Byte>>): seq<Byte> {
    if cs == [] then [] else Flatten(cs[..|cs| - 1]) + cs[|cs| - 1]
  }

  lemma {:induction false} FlattenSplits(a: seq<seq<Byte>>, b: seq<seq<Byte>>)
    ensures Flatten(a + b) == Flatten(a) + Flatten(b)
  {
    if b == [] {
      assert a + b == a;
    } else {
      FlattenSplits(a, b[..|b| - 1]);
      assert (a + b)[..|a + b| - 1] == a + b[..|b| - 1];
    }
  }

  lemma FlattenOfThree(a: seq<seq<Byte>>, b: seq<seq<Byte>>, c: seq<seq<Byte>>)
    ensures Flatten(a + b + c) == Flatten(a) + Flatten(b) + Flatten(c)
  {
    FlattenSplits(a + b, c);
    FlattenSplits(a, b);
  }

  /** Placing bytes among places splices them into the payload, at the end of what comes before. */
  lemma PlacedFlatten(cs: seq<seq<Byte>>, c: seq<Byte>, off: int, free: bool)
    requires free && InRange(off, |cs|) ==> cs[off] == []
    ensures var at := |Flatten(cs[..Place(off, |cs|)])|;
            at <= |Flatten(cs)|
            && Flatten(Placed(cs, c, off, free)) == Flatten(cs)[..at] + c + Flatten(cs)[at..]
  {
    var before, gone, behind := cs[..Place(off, |cs|)], Gone(cs, off, free), Behind(cs, off, free);
    PlacedCuts(cs, c, off, free);
    FlattenOfThree(before, gone, behind);
    FlattenOfThree(before, [c], behind);
    assert Flatten([c]) == c && Flatten(gone) == [];
    assert Flatten(cs) == Flatten(before) + Flatten(behind);
  }

  // ---------- The local buffer ----------

  /** A stretch of the local buffer. */
  datatype Region = Region(start: nat, len: nat)

  /** The regions follow each other from 0 and end at used. */
  predicate Tiled(rs: seq<Region>, used: int) {
    if rs == [] then used == 0
    else var r := rs[|rs| - 1]; r.start + r.len == used && Tiled(rs[..|rs| - 1], r.start)
  }

  function RegionsLen(rs: seq<Region>): nat {
    if rs == [] then 0 else RegionsLen(rs[..|rs| - 1]) + rs[|rs| - 1].len
  }

  /** Regions that were handed out are disjoint, inside the used part, and together make it up. */
  lemma {:induction false} TiledRegions(rs: seq<Region>, used: int)
    requires Tiled(rs, used)
    ensures RegionsLen(rs) == used
    ensures forall i :: 0 <= i < |rs| ==> rs[i].start + rs[i].len <= used
    ensures forall i, j :: 0 <= i < j < |rs| ==> rs[i].start + rs[i].len <= rs[j].start
  {
    if rs == [] {
    } else {
      var init := rs[..|rs| - 1];
      TiledRegions(init, rs[|rs| - 1].start);
      assert forall i :: 0 <= i < |init| ==> init[i] == rs[i];
    }
  }
}
