// The global libraries of src/main.cpp: stamp names, the stamp list and the
// thumbnail cache.
module MainState {
  import opened Wrappers
  import opened Bits

  // ----- stamp_gen_name -----

  /** A lower-case hexadecimal digit, as printf's %x writes it. */
  function LowerHexChar(v: nat): char
    requires v < 16
  {
    "0123456789abcdef"[v]
  }

  function LowerHexValue(c: char): nat
  {
    if '0' <= c <= '9' then c as int - '0' as int
    else if 'a' <= c <= 'f' then c as int - 'a' as int + 10
    else 0
  }

  /** printf's "%0wx": v in lower-case hexadecimal, padded with zeros to at least
      w digits. */
  function HexPad(v: nat, w: nat): (s: string)
    ensures |s| >= 1 && |s| >= w
    decreases v + w
  {
    if v < 16 && w <= 1 then [LowerHexChar(v)]
    else HexPad(v / 16, if w > 0 then w - 1 else 0) + [LowerHexChar(v % 16)]
  }

  /** The value of a string of hexadecimal digits. */
  function HexValueOf(s: string): nat
  {
    if |s| == 0 then 0 else 16 * HexValueOf(s[..|s| - 1]) + LowerHexValue(s[|s| - 1])
  }

  /** Reading the digits back gives the number. */
  lemma {:induction false} HexPadValue(v: nat, w: nat)
    ensures HexValueOf(HexPad(v, w)) == v
    decreases v + w
  {
    if !(v < 16 && w <= 1) {
      var w' := if w > 0 then w - 1 else 0;
      var q, d := v / 16, v % 16;
      assert HexPad(v, w) == HexPad(q, w') + [LowerHexChar(d)];
      HexPadValue(q, w');
      LastHexDigit(HexPad(q, w'), d);
      assert v == 16 * q + d;
    }
  }

  /** One more digit at the end multiplies the value by 16 and adds the digit. */
  lemma LastHexDigit(p: string, d: nat)
    requires d < 16
    ensures HexValueOf(p + [LowerHexChar(d)]) == 16 * HexValueOf(p) + d
  {
    assert (p + [LowerHexChar(d)])[..|p|] == p;
    assert LowerHexValue(LowerHexChar(d)) == d;
  }

  /** A number below 16^w takes exactly w digits (at least one). */
  lemma {:induction false} HexPadLength(v: nat, w: nat)
    requires w >= 1 && v < Pow2(4 * w)
    ensures |HexPad(v, w)| == w
    decreases w
  {
    assert Pow2(4) == 16;
    if !(v < 16 && w <= 1) {
      assert Pow2(4 * w) == 16 * Pow2(4 * (w - 1)) by {
        Pow2Add(4, 4 * (w - 1));
        assert Pow2(4) == 16;
      }
      HexPadLength(v / 16, w - 1);
    }
  }

  /** The name of a stamp saved at time t as the n-th of its second. */
  function StampName(t: nat, n: nat): string
  {
    HexPad(t, 8) + HexPad(n, 2)
  }

  /** stamp_gen_name's memory of the last second and the counter within it. */
  class StampNamer {
    var lastTime: nat
    var lastName: nat

    constructor ()
      ensures lastTime == 0 && lastName == 0
    {
      lastTime, lastName := 0, 0;
    }

    /** stamp_gen_name, given time(NULL) as an unsigned 32-bit t: a new second
        restarts the counter at 0, the same second increments it (modulo 2^32). */
    method GenName(t: nat) returns (name: string)
      requires t < 0x1_0000_0000
      modifies this
      ensures old(lastTime) != t ==> lastTime == t && lastName == 0
      ensures old(lastTime) == t ==> lastTime == t && lastName == (old(lastName) + 1) % 0x1_0000_0000
      ensures name == StampName(lastTime, lastName)
    {
      if lastTime != t {
        lastTime := t;
        lastName := 0;
      } else {
        lastName := (lastName + 1) % 0x1_0000_0000;
      }
      name := StampName(lastTime, lastName);
    }
  }

  /** Different (second, counter) pairs give different names, so two stamps never
      share a file: the 32-bit time takes exactly eight digits. */
  lemma StampNamesDistinct(t1: nat, n1: nat, t2: nat, n2: nat)
    requires t1 < 0x1_0000_0000 && t2 < 0x1_0000_0000
    requires StampName(t1, n1) == StampName(t2, n2)
    ensures t1 == t2 && n1 == n2
  {
    Pow2Values();
    HexPadLength(t1, 8);
    HexPadLength(t2, 8);
    var s := StampName(t1, n1);
    assert HexPad(t1, 8) == s[..8] == HexPad(t2, 8);
    assert HexPad(n1, 2) == s[8..] == HexPad(n2, 2);
    HexPadValue(t1, 8);
    HexPadValue(t2, 8);
    HexPadValue(n1, 2);
    HexPadValue(n2, 2);
  }

  /** The name fits the ten characters a stamp name holds while the counter stays
      below 256. */
  lemma StampNameLength(t: nat, n: nat)
    requires t < 0x1_0000_0000 && n < 256
    ensures |StampName(t, n)| == 10
  {
    Pow2Values();
    HexPadLength(t, 8);
    HexPadLength(n, 2);
  }

  // ----- the stamp list -----

  const STAMP_MAX: nat := 5000

  /** A stamp slot; an empty name marks an unused one. */
  datatype Stamp = Stamp(name: string, thumb: Option<seq<int>>)

  const EmptyStamp := Stamp("", None)

  class StampList {
    var stamps: seq<Stamp>
    var count: nat

    ghost predicate Valid() reads this
    {
      |stamps| == STAMP_MAX && count <= STAMP_MAX
    }

    /** stamp_save, once the save is written to the file named name: every stamp
        moves one slot down (the last one is dropped), the new stamp takes slot
        0 with the thumbnail stamp_gen_thumb renders from that file (thumb: none
        when the file cannot be read back or not rendered), and the count grows
        up to STAMP_MAX. */
    method Save(name: string, thumb: Option<seq<int>>)
      requires Valid()
      modifies this
      ensures Valid()
      ensures stamps == [Stamp(name, thumb)] + old(stamps)[..STAMP_MAX - 1]
      ensures count == if old(count) < STAMP_MAX then old(count) + 1 else STAMP_MAX
    {
      stamps := [EmptyStamp] + stamps[..STAMP_MAX - 1];
      if count < STAMP_MAX {
        count := count + 1;
      }
      stamps := stamps[0 := Stamp(name, None)];
      stamps := stamps[0 := stamps[0].(thumb := thumb)];
    }

    /** stamp_load: nothing for a slot without a thumbnail or a name, or whose
        file could not be read (data is the file's contents, if any). Otherwise
        the save is returned and, with reorder, the stamp moves to the front. */
    method Load(i: nat, reorder: bool, data: Option<seq<int>>) returns (save: Option<seq<int>>)
      requires Valid() && i < STAMP_MAX
      modifies this`stamps
      ensures Valid()
      ensures old(stamps[i].thumb == None || stamps[i].name == "") || data == None ==>
        save == None && stamps == old(stamps)
      ensures old(stamps[i].thumb != None && stamps[i].name != "") && data != None ==>
        save == data &&
        stamps == if reorder && i > 0 then MoveToFront(old(stamps), i) else old(stamps)
    {
      if stamps[i].thumb == None || stamps[i].name == "" {
        return None;
      }
      if data == None {
        return None;
      }
      save := data;
      if reorder && i > 0 {
        var tmp := stamps[i];
        stamps := [tmp] + stamps[..i] + stamps[i + 1..];
      }
    }
  }

  /** A stamp just saved, with its thumbnail rendered, loads back from slot 0:
      the save returned is the file's contents and the list keeps its order. */
  method SaveThenLoad(l: StampList, name: string, thumb: seq<int>, file: seq<int>) returns (save: Option<seq<int>>)
    requires l.Valid() && name != ""
    modifies l
    ensures l.Valid() && save == Some(file)
    ensures l.stamps[0] == Stamp(name, Some(thumb)) && l.stamps[1..] == old(l.stamps)[..STAMP_MAX - 1]
  {
    l.Save(name, Some(thumb));
    save := l.Load(0, true, Some(file));
  }

  /** The list with entry i moved to the front. */
  function MoveToFront<T>(s: seq<T>, i: nat): seq<T>
    requires i < |s|
  {
    [s[i]] + s[..i] + s[i + 1..]
  }

  /** Moving to the front keeps every stamp (it permutes the list), puts stamp i
      first and keeps the others in their relative order. */
  lemma MoveToFrontPermutes<T>(s: seq<T>, i: nat)
    requires i < |s|
    ensures |MoveToFront(s, i)| == |s| && multiset(MoveToFront(s, i)) == multiset(s)
    ensures MoveToFront(s, i)[0] == s[i]
    ensures MoveToFront(s, i)[1..] == s[..i] + s[i + 1..]
    ensures forall j :: i < j < |s| ==> MoveToFront(s, i)[j] == s[j]
  {
    assert s == s[..i] + [s[i]] + s[i + 1..];
  }

  // ----- the thumbnail cache -----

  const THUMB_CACHE_SIZE: nat := 256

  /** The first slot holding id, or -1. */
  function SlotOf(ids: seq<Option<string>>, id: string): (k: int)
    ensures -1 <= k < |ids|
    ensures k >= 0 ==> ids[k] == Some(id) && forall j :: 0 <= j < k ==> ids[j] != Some(id)
    ensures k == -1 ==> forall j :: 0 <= j < |ids| ==> ids[j] != Some(id)
  {
    if |ids| == 0 then -1
    else if ids[|ids| - 1] == Some(id) && SlotOf(ids[..|ids| - 1], id) == -1 then |ids| - 1
    else SlotOf(ids[..|ids| - 1], id)
  }

  /** Making slot i the youngest and aging every younger slot by one keeps the
      ages of occupied slots distinct and non-negative. */
  lemma Promoted(ids: seq<Option<string>>, l0: seq<int>, l1: seq<int>, i: int)
    requires |ids| == |l0| == |l1| && 0 <= i < |ids| && ids[i].Some?
    requires forall a, b :: 0 <= a < b < |ids| && ids[a].Some? && ids[b].Some? ==> l0[a] != l0[b]
    requires forall a :: 0 <= a < |ids| && ids[a].Some? ==> l0[a] >= 0
    requires l1[i] == 0
    requires forall j :: 0 <= j < |l1| && j != i ==> l1[j] == if l0[j] < l0[i] then l0[j] + 1 else l0[j]
    ensures forall a, b :: 0 <= a < b < |ids| && ids[a].Some? && ids[b].Some? ==> l1[a] != l1[b]
    ensures forall a :: 0 <= a < |ids| && ids[a].Some? ==> l1[a] >= 0
  {
  }

  /** The cache of save thumbnails: each slot holds an id (or none), the
      thumbnail's bytes and size, and an age, 0 for the most recently used. */
  class ThumbCache {
    const ids: array<Option<string>>
    const data: array<seq<int>>
    const sizes: array<int>
    const lru: array<int>

    /** Every id is held at most once, and occupied slots have distinct
        non-negative ages. */
    ghost predicate Valid() reads this, ids, lru
    {
      ids.Length == THUMB_CACHE_SIZE && data.Length == THUMB_CACHE_SIZE &&
      sizes.Length == THUMB_CACHE_SIZE && lru.Length == THUMB_CACHE_SIZE && sizes != lru &&
      (forall i, j :: 0 <= i < j < THUMB_CACHE_SIZE && ids[i].Some? && ids[j].Some? ==>
         ids[i] != ids[j] && lru[i] != lru[j]) &&
      (forall i :: 0 <= i < THUMB_CACHE_SIZE && ids[i].Some? ==> lru[i] >= 0)
    }

    constructor ()
      ensures Valid() && fresh(ids) && fresh(data) && fresh(sizes) && fresh(lru)
      ensures forall i :: 0 <= i < THUMB_CACHE_SIZE ==> ids[i] == None
    {
      ids := new Option<string>[THUMB_CACHE_SIZE](_ => None);
      data := new seq<int>[THUMB_CACHE_SIZE](_ => []);
      sizes := new int[THUMB_CACHE_SIZE](_ => 0);
      lru := new int[THUMB_CACHE_SIZE](_ => 0);
    }

    /** The search loop shared by inval and find. */
    method Search(id: string) returns (i: int)
      requires Valid()
      ensures i == SlotOf(ids[..], id)
    {
      i := 0;
      while i < THUMB_CACHE_SIZE
        invariant 0 <= i <= THUMB_CACHE_SIZE
        invariant forall j :: 0 <= j < i ==> ids[j] != Some(id)
      {
        if ids[i] == Some(id) {
          SlotIsFirst(ids[..], id, i);
          return;
        }
        i := i + 1;
      }
      i := -1;
      SlotIsFirst(ids[..], id, -1);
    }

    /** thumb_cache_inval: frees the slot holding id, if any, and makes every age
        above the freed one younger by one. */
    method Inval(id: string)
      requires Valid()
      modifies ids, lru
      ensures Valid() && forall n :: 0 <= n < THUMB_CACHE_SIZE ==> ids[n] != Some(id)
      ensures var k := SlotOf(old(ids[..]), id);
        if k == -1 then ids[..] == old(ids[..]) && lru[..] == old(lru[..])
        else (ids[..] == old(ids[..])[k := None] &&
              forall j :: 0 <= j < THUMB_CACHE_SIZE ==>
                lru[j] == if old(lru[j]) > old(lru[k]) then old(lru[j]) - 1 else old(lru[j]))
    {
      var i := Search(id);
      if i < 0 {
        return;
      }
      ids[i] := None;
      var j := 0;
      while j < THUMB_CACHE_SIZE
        invariant 0 <= j <= THUMB_CACHE_SIZE && ids[..] == old(ids[..])[i := None]
        invariant forall m :: 0 <= m < j ==> lru[m] == if old(lru[m]) > old(lru[i]) then old(lru[m]) - 1 else old(lru[m])
        invariant forall m :: j <= m < THUMB_CACHE_SIZE ==> lru[m] == old(lru[m])
      {
        if lru[j] > lru[i] {
          lru[j] := lru[j] - 1;
        }
        j := j + 1;
      }
    }

    /** thumb_cache_find: false for an id not in the cache. On a hit the entry
        becomes the youngest, every entry younger than it ages by one, and a
        copy of its thumbnail and its size are returned. */
    method Find(id: string) returns (found: bool, thumb: seq<int>, size: int)
      requires Valid()
      modifies lru
      ensures Valid()
      ensures var k := SlotOf(ids[..], id);
        (k == -1 <==> !found) &&
        (k == -1 ==> lru[..] == old(lru[..])) &&
        (k >= 0 ==> (thumb == data[k] && size == sizes[k] && lru[k] == 0 &&
                     forall j :: 0 <= j < THUMB_CACHE_SIZE && j != k ==>
                       lru[j] == if old(lru[j]) < old(lru[k]) then old(lru[j]) + 1 else old(lru[j])))
    {
      var i := Search(id);
      if i < 0 {
        return false, [], 0;
      }
      ghost var l0 := lru[..];
      var j := 0;
      while j < THUMB_CACHE_SIZE
        invariant 0 <= j <= THUMB_CACHE_SIZE && lru[i] == old(lru[i])
        invariant forall m :: 0 <= m < j ==> lru[m] == if old(lru[m]) < old(lru[i]) then old(lru[m]) + 1 else old(lru[m])
        invariant forall m :: j <= m < THUMB_CACHE_SIZE ==> lru[m] == old(lru[m])
      {
        if lru[j] < lru[i] {
          lru[j] := lru[j] + 1;
        }
        j := j + 1;
      }
      lru[i] := 0;
      Promoted(ids[..], l0, lru[..], i);
      return true, data[i], sizes[i];
    }

    /** thumb_cache_add: the id is first invalidated, which frees its slot and
        makes every entry older than it younger by one; nothing more happens for
        a missing thumbnail or size 0. Otherwise the thumbnail's first size bytes
        go to the first free slot, or, when every slot is taken, to the slot of
        the oldest entry, which is invalidated; every other slot then ages by one
        and the new entry is the youngest. So an entry that stays is one older
        than before, except, when the id was already cached, one that was older
        than the id's old entry, whose age is unchanged. */
    method Add(id: string, thumb: Option<seq<int>>, size: int)
      requires Valid() && size >= 0 && (thumb.Some? ==> size <= |thumb.value|)
      modifies ids, data, sizes, lru
      ensures Valid()
      ensures thumb == None || size == 0 ==> SlotOf(ids[..], id) == -1
      ensures thumb != None && size != 0 ==>
        var k := SlotOf(ids[..], id);
        k >= 0 && data[k] == thumb.value[..size] && sizes[k] == size && lru[k] == 0
      ensures (thumb != None && size != 0 && SlotOf(old(ids[..]), id) == -1 &&
               forall n :: 0 <= n < THUMB_CACHE_SIZE ==> old(ids[n]).Some?) ==>
        var k := SlotOf(ids[..], id);
        k >= 0 && forall n :: 0 <= n < THUMB_CACHE_SIZE ==> old(lru[n]) <= old(lru[k])
      ensures forall n :: 0 <= n < THUMB_CACHE_SIZE && ids[n].Some? && ids[n] != Some(id) ==>
        ids[n] == old(ids[n]) && data[n] == old(data[n]) && sizes[n] == old(sizes[n])
      ensures (thumb != None && size != 0 && SlotOf(old(ids[..]), id) == -1 &&
               exists n :: 0 <= n < THUMB_CACHE_SIZE && old(ids[n]) == None) ==>
        var k := SlotOf(ids[..], id);
        k >= 0 && old(ids[k]) == None &&
        forall n :: 0 <= n < THUMB_CACHE_SIZE && n != k ==>
          ids[n] == old(ids[n]) && data[n] == old(data[n]) && sizes[n] == old(sizes[n]) && lru[n] == old(lru[n]) + 1
      ensures (thumb != None && size != 0 && SlotOf(old(ids[..]), id) == -1 &&
               forall n :: 0 <= n < THUMB_CACHE_SIZE ==> old(ids[n]).Some?) ==>
        var k := SlotOf(ids[..], id);
        k >= 0 && forall n :: 0 <= n < THUMB_CACHE_SIZE && n != k ==>
          ids[n] == old(ids[n]) && data[n] == old(data[n]) && sizes[n] == old(sizes[n]) && lru[n] == old(lru[n]) + 1
      ensures (thumb != None && size != 0 && SlotOf(old(ids[..]), id) >= 0) ==>
        var j, k := SlotOf(old(ids[..]), id), SlotOf(ids[..], id);
        0 <= k <= j && (k == j || old(ids[k]) == None) &&
        forall n :: 0 <= n < THUMB_CACHE_SIZE && n != k ==>
          ids[n] == old(ids[..])[j := None][n] && data[n] == old(data[n]) && sizes[n] == old(sizes[n]) &&
          lru[n] == if old(lru[n]) > old(lru[j]) then old(lru[n]) else old(lru[n]) + 1
      ensures thumb == None || size == 0 ==>
        var j := SlotOf(old(ids[..]), id);
        data[..] == old(data[..]) && sizes[..] == old(sizes[..]) &&
        if j == -1 then ids[..] == old(ids[..]) && lru[..] == old(lru[..])
        else (ids[..] == old(ids[..])[j := None] &&
              forall n :: 0 <= n < THUMB_CACHE_SIZE ==>
                lru[n] == if old(lru[n]) > old(lru[j]) then old(lru[n]) - 1 else old(lru[n]))
    {
      Inval(id);
      if thumb == None || size == 0 {
        return;
      }
      ghost var ids1, lru1 := ids[..], lru[..];
      ghost var j := SlotOf(old(ids[..]), id);
      if j == -1 {
        assert ids1 == old(ids[..]) && lru1 == old(lru[..]);
      } else {
        assert ids1[j] == None;
      }
      Place(id, thumb.value[..size], size);
    }

    /** The part of thumb_cache_add after the id is invalidated: the bytes go
        to the first free slot, or to the slot of the oldest entry, which is
        invalidated first. */
    method Place(id: string, bytes: seq<int>, size: int)
      requires Valid() && forall n :: 0 <= n < THUMB_CACHE_SIZE ==> ids[n] != Some(id)
      modifies ids, data, sizes, lru
      ensures Valid()
      ensures var k := SlotOf(ids[..], id);
        k >= 0 && data[k] == bytes && sizes[k] == size && lru[k] == 0
      ensures forall n :: 0 <= n < THUMB_CACHE_SIZE && ids[n].Some? && ids[n] != Some(id) ==>
        ids[n] == old(ids[n]) && data[n] == old(data[n]) && sizes[n] == old(sizes[n])
      ensures (forall n :: 0 <= n < THUMB_CACHE_SIZE ==> old(ids[n]).Some?) ==>
        var k := SlotOf(ids[..], id);
        k >= 0 && (forall n :: 0 <= n < THUMB_CACHE_SIZE ==> old(lru[n]) <= old(lru[k])) &&
        forall n :: 0 <= n < THUMB_CACHE_SIZE && n != k ==>
          ids[n] == old(ids[n]) && data[n] == old(data[n]) && sizes[n] == old(sizes[n]) && lru[n] == old(lru[n]) + 1
      ensures (exists n :: 0 <= n < THUMB_CACHE_SIZE && old(ids[n]) == None) ==>
        var k := SlotOf(ids[..], id);
        k >= 0 && old(ids[k]) == None && (forall n :: 0 <= n < k ==> old(ids[n]).Some?) &&
        forall n :: 0 <= n < THUMB_CACHE_SIZE && n != k ==>
          ids[n] == old(ids[n]) && data[n] == old(data[n]) && sizes[n] == old(sizes[n]) && lru[n] == old(lru[n]) + 1
    {
      var i, full := FreeSlot();
      if full {
        Oldest(i);
        Inval(ids[i].value);
      }
      Store(i, id, bytes, size);
    }

    /** Puts id in the free slot i as the youngest entry; every other entry ages
        by one. */
    method Store(i: int, id: string, bytes: seq<int>, size: int)
      requires Valid() && 0 <= i < THUMB_CACHE_SIZE && ids[i] == None
      requires forall n :: 0 <= n < THUMB_CACHE_SIZE ==> ids[n] != Some(id)
      modifies ids, data, sizes, lru
      ensures Valid()
      ensures SlotOf(ids[..], id) == i && data[i] == bytes && sizes[i] == size && lru[i] == 0
      ensures forall n :: 0 <= n < THUMB_CACHE_SIZE && n != i ==>
        ids[n] == old(ids[n]) && data[n] == old(data[n]) && sizes[n] == old(sizes[n]) && lru[n] == old(lru[n]) + 1
    {
      Age(i);
      ids[i] := Some(id);
      data[i] := bytes;
      sizes[i] := size;
      lru[i] := 0;
      SlotIsFirst(ids[..], id, i);
    }

    /** The slot a new thumbnail goes to: the first free one, or, when every slot
        is taken, the oldest entry. */
    method FreeSlot() returns (i: int, full: bool)
      requires Valid()
      ensures 0 <= i < THUMB_CACHE_SIZE
      ensures !full ==> ids[i] == None && forall n :: 0 <= n < i ==> ids[n].Some?
      ensures full ==> (forall n :: 0 <= n < THUMB_CACHE_SIZE ==> ids[n].Some? && lru[n] <= lru[i])
    {
      i := 0;
      var m, j := -1, -1;
      while i < THUMB_CACHE_SIZE
        invariant 0 <= i <= THUMB_CACHE_SIZE
        invariant forall n :: 0 <= n < i ==> ids[n].Some?
        invariant -1 <= j < i && (j >= 0 ==> ids[j].Some? && m == lru[j]) && (j == -1 ==> m == -1)
        invariant i > 0 ==> j >= 0 && forall n :: 0 <= n < i ==> lru[n] <= m
      {
        if ids[i] == None {
          return i, false;
        }
        assert lru[i] >= 0;
        if lru[i] > m {
          m := lru[i];
          j := i;
        }
        i := i + 1;
      }
      return j, true;
    }

    /** The slot the search for the oldest entry ends on holds the id searched
        for. */
    lemma Oldest(j: int)
      requires Valid() && 0 <= j < THUMB_CACHE_SIZE && ids[j].Some?
      ensures SlotOf(ids[..], ids[j].value) == j
    {
      SlotIsFirst(ids[..], ids[j].value, j);
    }

    /** Every entry ages by one; slot i is free. */
    method Age(i: nat)
      requires Valid() && i < THUMB_CACHE_SIZE && ids[i] == None
      modifies lru
      ensures Valid()
      ensures forall n :: 0 <= n < THUMB_CACHE_SIZE ==> lru[n] == old(lru[n]) + 1
    {
      var j := 0;
      while j < THUMB_CACHE_SIZE
        invariant 0 <= j <= THUMB_CACHE_SIZE
        invariant forall n :: 0 <= n < j ==> lru[n] == old(lru[n]) + 1
        invariant forall n :: j <= n < THUMB_CACHE_SIZE ==> lru[n] == old(lru[n])
      {
        lru[j] := lru[j] + 1;
        j := j + 1;
      }
    }
  }

  /** SlotOf is the first slot holding id. */
  lemma {:induction false} SlotIsFirst(ids: seq<Option<string>>, id: string, k: int)
    requires -1 <= k < |ids|
    requires k >= 0 ==> ids[k] == Some(id) && forall j :: 0 <= j < k ==> ids[j] != Some(id)
    requires k == -1 ==> forall j :: 0 <= j < |ids| ==> ids[j] != Some(id)
    ensures SlotOf(ids, id) == k
  {
    var s := SlotOf(ids, id);
    if s >= 0 && k >= 0 {
      assert !(s < k) && !(k < s);
    }
  }

  /** Adding a thumbnail and then looking it up gives back its bytes, and makes it
      the youngest entry. */
  method AddThenFind(c: ThumbCache, id: string, thumb: seq<int>, size: int)
    returns (found: bool, back: seq<int>, backSize: int)
    requires c.Valid() && 0 < size <= |thumb|
    modifies c.ids, c.data, c.sizes, c.lru
    ensures c.Valid()
    ensures found && back == thumb[..size] && backSize == size
  {
    c.Add(id, Some(thumb), size);
    found, back, backSize := c.Find(id);
  }
}
