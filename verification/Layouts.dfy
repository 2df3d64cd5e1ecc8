/** The encodings byte by byte, by plain offsets. */
module Layouts {
  import opened Bytes
  import ChangeEvent
  import opened EntityForest
  import opened EntityPdr
  import Fru

  /** The 16-bit number at an offset, lowest byte first; and the 32-bit one. */
  predicate Holds16(s: seq<byte>, at: nat, n: int) {
    at + 2 <= |s| && s[at] as int + 0x100 * (s[at + 1] as int) == n
  }

  predicate Holds32(s: seq<byte>, at: nat, n: int) {
    at + 4 <= |s|
    && s[at] as int + 0x100 * (s[at + 1] as int) + 0x1_0000 * (s[at + 2] as int) + 0x100_0000 * (s[at + 3] as int) == n
  }

  lemma Is16(s: seq<byte>, at: nat, n: u16)
    requires at + 2 <= |s| && s[at..at + 2] == Le16(n)
    ensures Holds16(s, at, n)
  {
    Le16RoundTrip(s, at, n);
  }

  lemma Is32(s: seq<byte>, at: nat, n: u32)
    requires at + 4 <= |s| && s[at..at + 4] == Le32(n)
    ensures Holds32(s, at, n)
  {
    Le32RoundTrip(s, at, n);
  }

  // ----- entity association PDRs -----

  /** Type, instance and container of an entity, two bytes each. */
  predicate HoldsEntity(s: seq<byte>, at: nat, e: Entity) {
    Holds16(s, at, e.ty) && Holds16(s, at + 2, e.inst) && Holds16(s, at + 4, e.cid)
  }

  lemma IsEntity(s: seq<byte>, at: nat, e: Entity)
    requires at + ENTITY_SIZE <= |s| && s[at..at + ENTITY_SIZE] == EntityBytes(e)
    ensures HoldsEntity(s, at, e)
  {
    EntityRoundTrip(s, at, e);
  }

  /** An association PDR: no handle yet, version 1, type 15, change number 0, the length behind the header; container
      id, 0 for a physical and 1 for a logical association, the container entity, the count, the contained entities. */
  lemma GroupLayout(g: Group)
    requires |g.children| <= 0xFF
    ensures var s := GroupPdr(g);
            && |s| == 20 + 6 * |g.children|
            && Holds32(s, 0, 0) && s[4] == 1 && s[5] == 15 && Holds16(s, 6, 0) && Holds16(s, 8, |s| - 10)
            && Holds16(s, 10, g.cid) && s[12] == (if g.assoc.Physical? then 0 else 1)
            && HoldsEntity(s, 13, g.parent) && s[19] == |g.children|
            && forall k | 0 <= k < |g.children| :: HoldsEntity(s, 20 + 6 * k, g.children[k])
  {
    hide GroupHeader, EntityBytes, EntitiesBytes, Holds16, Holds32, HoldsEntity;
    var s := GroupPdr(g);
    HeaderLayout(g, s);
    forall k | 0 <= k < |g.children| ensures HoldsEntity(s, 20 + 6 * k, g.children[k]) {
      EntitiesBytesAt(g.children, k);
      assert s[20..|s|] == EntitiesBytes(g.children);
      SliceOfSlice(s, 20, |s|, 6 * k, 6 * k + 6);
      IsEntity(s, 20 + 6 * k, g.children[k]);
    }
  }

  lemma HeaderLayout(g: Group, s: seq<byte>)
    requires |g.children| <= 0xFF && GroupHeader(g) <= s
    ensures Holds32(s, 0, 0) && s[4] == 1 && s[5] == 15 && Holds16(s, 6, 0)
    ensures Holds16(s, 8, 10 + 6 * |g.children|)
    ensures Holds16(s, 10, g.cid) && s[12] == (if g.assoc.Physical? then 0 else 1)
    ensures HoldsEntity(s, 13, g.parent) && s[19] == |g.children|
  {
    hide Le16, Le32, EntityBytes, Holds16, Holds32, HoldsEntity;
    var h := GroupHeader(g);
    assert s[0..4] == h[0..4] == Le32(0);
    Is32(s, 0, 0);
    assert s[4..6] == h[4..6] == [1, 15];
    assert s[4] == s[4..6][0] && s[5] == s[4..6][1];
    assert s[6..8] == h[6..8] == Le16(0);
    Is16(s, 6, 0);
    assert s[8..10] == h[8..10] == Le16(10 + 6 * |g.children|);
    Is16(s, 8, 10 + 6 * |g.children|);
    assert s[10..12] == h[10..12] == Le16(g.cid);
    Is16(s, 10, g.cid);
    assert s[12..13] == h[12..13] == [AssociationByte(g.assoc)];
    assert s[12] == s[12..13][0];
    assert s[13..19] == h[13..19] == EntityBytes(g.parent);
    IsEntity(s, 13, g.parent);
    assert s[19..20] == h[19..20] == [|g.children|];
    assert s[19] == s[19..20][0];
  }

  // ----- FRU records -----

  /** Where field `k` starts among fields. */
  function FieldOffset(fs: seq<Fru.Field>, k: nat): nat
    requires k <= |fs|
  {
    if k == 0 then 0 else FieldOffset(fs, k - 1) + 2 + |fs[k - 1].value|
  }

  lemma {:induction false} FieldOffsetTail(fs: seq<Fru.Field>, k: nat)
    requires 0 < k <= |fs|
    ensures FieldOffset(fs, k) == 2 + |fs[0].value| + FieldOffset(fs[1..], k - 1)
  {
    if k > 1 {
      FieldOffsetTail(fs, k - 1);
    }
  }

  /** A field: its type, the size of its value, the value. */
  predicate HoldsField(s: seq<byte>, at: nat, f: Fru.Field) {
    at + 2 + |f.value| <= |s| && s[at] == f.ty && s[at + 1] == |f.value| && s[at + 2..at + 2 + |f.value|] == f.value
  }

  lemma {:induction false} FieldsLayout(fs: seq<Fru.Field>, k: nat)
    requires k < |fs| && forall i | 0 <= i < |fs| :: |fs[i].value| <= 0xFF
    ensures HoldsField(Fru.FieldsBytes(fs), FieldOffset(fs, k), fs[k])
    ensures FieldOffset(fs, k + 1) <= |Fru.FieldsBytes(fs)|
  {
    var first, rest := Fru.FieldBytes(fs[0]), Fru.FieldsBytes(fs[1..]);
    assert Fru.FieldsBytes(fs) == first + rest;
    FieldOffsetTail(fs, k + 1);
    if k == 0 {
      assert (first + rest)[2..|first|] == fs[0].value;
    } else {
      FieldOffsetTail(fs, k);
      FieldsLayout(fs[1..], k - 1);
      BehindFirst(first, rest, FieldOffset(fs[1..], k - 1), fs[k]);
    }
  }

  lemma BehindFirst(a: seq<byte>, b: seq<byte>, at: nat, f: Fru.Field)
    requires HoldsField(b, at, f)
    ensures HoldsField(a + b, |a| + at, f)
  {
    var s := a + b;
    assert s[|a| + at + 2..|a| + at + 2 + |f.value|] == b[at + 2..at + 2 + |f.value|];
  }

  lemma FruHeaderLayout(setId: u16, ty: byte, count: byte, encoding: byte, tail: seq<byte>)
    ensures var s := Fru.HeaderBytes(setId, ty, count, encoding) + tail;
            5 <= |s| && Holds16(s, 0, setId) && s[2] == ty && s[3] == count && s[4] == encoding
  {
    hide Le16, Holds16;
    var s := Fru.HeaderBytes(setId, ty, count, encoding) + tail;
    assert s[0..2] == Le16(setId);
    Is16(s, 0, setId);
  }

  /** A FRU record: set id, record type, number of fields, encoding, and the fields one after the other. */
  lemma RecordLayout(r: Fru.FruRecord, k: nat)
    requires Fru.Fits(r)
    ensures var s := Fru.RecordBytes(r);
            && 5 <= |s| && Holds16(s, 0, r.setId) && s[2] == r.ty && s[3] == |r.fields| && s[4] == r.encoding
            && (k < |r.fields| ==> HoldsField(s, 5 + FieldOffset(r.fields, k), r.fields[k]))
  {
    hide Fru.FieldsBytes, HoldsField, Holds16;
    var tail := Fru.FieldsBytes(r.fields);
    var h := Fru.HeaderBytes(r.setId, r.ty, |r.fields|, r.encoding);
    FruHeaderLayout(r.setId, r.ty, |r.fields|, r.encoding, tail);
    if k < |r.fields| {
      FieldsLayout(r.fields, k);
      BehindFirst(h, tail, FieldOffset(r.fields, k), r.fields[k]);
    }
  }

  // ----- repository change events -----

  lemma {:induction false} EntriesLayout(es: seq<u32>, k: nat)
    requires k < |es|
    ensures ChangeEvent.EntriesBytes(es)[4 * k..4 * k + 4] == Le32(es[k])
  {
    hide Le32;
    ChangeEvent.FirstEntry(es);
    var first, rest := Le32(es[0]), ChangeEvent.EntriesBytes(es[1..]);
    if k > 0 {
      EntriesLayout(es[1..], k - 1);
      assert (first + rest)[4 * k..4 * k + 4] == rest[4 * (k - 1)..4 * (k - 1) + 4];
    } else {
      assert (first + rest)[0..4] == first;
    }
  }

  /** A change record: the operation, the number of entries, and four bytes for each entry. */
  predicate HoldsChange(s: seq<byte>, at: nat, c: ChangeEvent.Change) {
    && at + 2 + 4 * |c.entries| <= |s| && s[at] == c.operation && s[at + 1] == |c.entries|
    && forall k | 0 <= k < |c.entries| :: Holds32(s, at + 2 + 4 * k, c.entries[k])
  }

  function ChangeOffset(cs: seq<ChangeEvent.Change>, k: nat): nat
    requires k <= |cs|
  {
    if k == 0 then 0 else ChangeOffset(cs, k - 1) + 2 + 4 * |cs[k - 1].entries|
  }

  lemma {:induction false} ChangeOffsetTail(cs: seq<ChangeEvent.Change>, k: nat)
    requires 0 < k <= |cs|
    ensures ChangeOffset(cs, k) == 2 + 4 * |cs[0].entries| + ChangeOffset(cs[1..], k - 1)
  {
    if k > 1 {
      ChangeOffsetTail(cs, k - 1);
    }
  }

  lemma ChangeLayout(a: seq<byte>, c: ChangeEvent.Change, b: seq<byte>)
    requires |c.entries| <= 0xFF
    ensures HoldsChange(a + ChangeEvent.ChangeBytes(c) + b, |a|, c)
  {
    hide Le32, Holds32;
    var mid, es := ChangeEvent.ChangeBytes(c), ChangeEvent.EntriesBytes(c.entries);
    var s := a + mid + b;
    assert s[|a|..|a| + |mid|] == mid && mid[2..|mid|] == es;
    assert s[|a|] == mid[0] && s[|a| + 1] == mid[1];
    forall k | 0 <= k < |c.entries| ensures Holds32(s, |a| + 2 + 4 * k, c.entries[k]) {
      EntriesLayout(c.entries, k);
      SliceOfSlice(mid, 2, |mid|, 4 * k, 4 * k + 4);
      SliceOfSlice(s, |a|, |a| + |mid|, 2 + 4 * k, 2 + 4 * k + 4);
      Is32(s, |a| + 2 + 4 * k, c.entries[k]);
    }
  }

  lemma {:induction false} ChangesLayout(a: seq<byte>, cs: seq<ChangeEvent.Change>, k: nat)
    requires ChangeEvent.AllFit(cs) && k < |cs|
    ensures HoldsChange(a + ChangeEvent.ChangesBytes(cs), |a| + ChangeOffset(cs, k), cs[k])
    decreases k
  {
    hide ChangeEvent.ChangesBytes, ChangeEvent.ChangeBytes, HoldsChange;
    ChangeEvent.FirstChange(cs);
    var first, rest := ChangeEvent.ChangeBytes(cs[0]), ChangeEvent.ChangesBytes(cs[1..]);
    assert a + (first + rest) == a + first + rest;
    if k == 0 {
      ChangeLayout(a, cs[0], rest);
    } else {
      ChangesLayout(a + first, cs[1..], k - 1);
      ChangeOffsetTail(cs, k);
    }
  }

  /** An event: the format, the number of change records, and the records one after the other. */
  lemma EventLayout(format: byte, cs: seq<ChangeEvent.Change>, k: nat)
    requires ChangeEvent.AllFit(cs) && |cs| <= 0xFF
    ensures var s := ChangeEvent.EventBytes(format, cs);
            && s[0] == format && s[1] == |cs|
            && (k < |cs| ==> HoldsChange(s, 2 + ChangeOffset(cs, k), cs[k]))
  {
    hide HoldsChange;
    if k < |cs| {
      ChangesLayout([format, |cs|], cs, k);
    }
  }
}
