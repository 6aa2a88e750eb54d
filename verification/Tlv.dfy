/** The user configuration in flash: a table of groups, each group a table of entries, all
    in type-length-value form with 32-bit little-endian heads. */
module Tlv {
  import opened Bytes

  const HEAD: nat := 8                      // sizeof(head_param_t)
  const BK_TLV_HEADER: u32 := 0x00564c54

  datatype Entry = Entry(kind: u32, value: seq<byte>)

  // ---------------------------------------------------------------- the format

  function EncodeHead(kind: u32, len: u32): (r: seq<byte>)
    ensures |r| == HEAD
  {
    EncLe32(kind) + EncLe32(len)
  }

  function EncodeEntry(e: Entry): seq<byte>
    requires |e.value| < TWO32
  {
    EncodeHead(e.kind, |e.value|) + e.value
  }

  ghost predicate Sizes(es: seq<Entry>) {
    forall i | 0 <= i < |es| :: |es[i].value| < TWO32
  }

  function Encode(es: seq<Entry>): seq<byte>
    requires Sizes(es)
  {
    if es == [] then [] else EncodeEntry(es[0]) + Encode(es[1..])
  }

  /** Position of the first entry of a type, or the number of entries. */
  function First(es: seq<Entry>, kind: u32): (i: nat)
    ensures i <= |es|
    ensures i < |es| ==> es[i].kind == kind
    ensures forall j | 0 <= j < i :: es[j].kind != kind
  {
    if es == [] || es[0].kind == kind then 0 else 1 + First(es[1..], kind)
  }

  function Lookup(es: seq<Entry>, kind: u32): Option<seq<byte>> {
    var i := First(es, kind);
    if i < |es| then Some(es[i].value) else None
  }

  /** `es`, encoded, is the value of the entry whose head lies at `start`. */
  ghost predicate Region(mem: seq<byte>, start: nat, es: seq<Entry>) {
    && Sizes(es)
    && start + HEAD + |Encode(es)| <= |mem| < TWO32
    && Le32(mem[start + 4..start + HEAD]) == |Encode(es)|
    && mem[start + HEAD..start + HEAD + |Encode(es)|] == Encode(es)
  }

  /** Offset of entry `i` inside the encoding. */
  function Offset(es: seq<Entry>, i: nat): nat
    requires i <= |es|
  {
    if i == 0 then 0 else Offset(es, i - 1) + HEAD + |es[i - 1].value|
  }

  lemma {:induction false} OffsetTail(es: seq<Entry>, i: nat)
    requires 0 < i <= |es|
    ensures Offset(es, i) == HEAD + |es[0].value| + Offset(es[1..], i - 1)
    decreases i
  {
    if i > 1 {
      OffsetTail(es, i - 1);
      assert es[1..][i - 2] == es[i - 1];
    }
  }

  /** Each entry's encoding is found at its offset, and the offsets fill the encoding. */
  lemma {:induction false} EntryAt(es: seq<Entry>, i: nat)
    requires Sizes(es) && i < |es|
    ensures Offset(es, i) + HEAD + |es[i].value| <= |Encode(es)|
    ensures Encode(es)[Offset(es, i)..Offset(es, i) + HEAD + |es[i].value|] == EncodeEntry(es[i])
    decreases |es|
  {
    hide EncodeEntry;
    var whole, first := Encode(es), EncodeEntry(es[0]);
    EntrySize(es[0]);
    if i == 0 {
      assert whole[..|first|] == first;
    } else {
      OffsetTail(es, i);
      EntryAt(es[1..], i - 1);
      var o, n := Offset(es[1..], i - 1), HEAD + |es[i].value|;
      BehindFirst(first, Encode(es[1..]), o, n);
    }
  }

  lemma BehindFirst(first: seq<byte>, rest: seq<byte>, o: nat, n: nat)
    requires o + n <= |rest|
    ensures (first + rest)[|first| + o..|first| + o + n] == rest[o..o + n]
  {
  }

  lemma EntrySize(e: Entry)
    requires |e.value| < TWO32
    ensures |EncodeEntry(e)| == HEAD + |e.value|
  {
  }

  lemma {:induction false} OffsetEnd(es: seq<Entry>)
    requires Sizes(es)
    ensures Offset(es, |es|) == |Encode(es)|
    decreases |es|
  {
    hide EncodeEntry;
    if es != [] {
      EntrySize(es[0]);
      OffsetTail(es, |es|);
      OffsetEnd(es[1..]);
    }
  }

  /** Head and value of an entry as they lie in memory. */
  lemma EntryInMemory(mem: seq<byte>, start: nat, es: seq<Entry>, i: nat)
    requires Region(mem, start, es) && i < |es|
    ensures var a := start + HEAD + Offset(es, i);
            && a + HEAD + |es[i].value| <= start + HEAD + |Encode(es)|
            && Le32(mem[a..a + 4]) == es[i].kind
            && Le32(mem[a + 4..a + HEAD]) == |es[i].value|
            && mem[a + HEAD..a + HEAD + |es[i].value|] == es[i].value
  {
    hide Encode, EncodeEntry, Le32;
    EntryAt(es, i);
    var o, n := Offset(es, i), HEAD + |es[i].value|;
    SubSlice(mem, start + HEAD, Encode(es), o, n);
    EntryParts(mem, start + HEAD + o, es[i]);
  }

  lemma EntryParts(mem: seq<byte>, a: nat, e: Entry)
    requires |e.value| < TWO32 && a + HEAD + |e.value| <= |mem|
    requires mem[a..a + HEAD + |e.value|] == EncodeEntry(e)
    ensures Le32(mem[a..a + 4]) == e.kind
    ensures Le32(mem[a + 4..a + HEAD]) == |e.value|
    ensures mem[a + HEAD..a + HEAD + |e.value|] == e.value
  {
    hide EncLe32, Le32;
    var w := EncodeEntry(e);
    var k, l := EncLe32(e.kind), EncLe32(|e.value|);
    SubSlice(mem, a, w, 0, 4);
    SubSlice(mem, a, w, 4, 4);
    SubSlice(mem, a, w, HEAD, |e.value|);
    assert w == k + l + e.value;
    assert w[0..4] == k && w[4..8] == l && w[HEAD..HEAD + |e.value|] == e.value;
  }

  // ---------------------------------------------------------------- the reader

  /** search_by_type: the address of the first entry of that type, 0 exactly if none. */
  method SearchByType(mem: seq<byte>, kind: u32, start: nat, ghost es: seq<Entry>) returns (addr: u32)
    requires Region(mem, start, es)
    ensures First(es, kind) == |es| ==> addr == 0
    ensures First(es, kind) < |es| ==> addr == start + HEAD + Offset(es, First(es, kind)) > 0
  {
    hide Encode, Le32, Region, Offset, Sizes, First;
    RegionSize(mem, start, es);
    TableEnds(es);
    var len := Le32(mem[start + 4..start + HEAD]);
    addr := Wrap32(start + HEAD);
    var end := Wrap32(addr + len);
    ghost var i := 0;
    while addr < end
      invariant i <= |es| && addr == start + HEAD + Offset(es, i) <= end == start + HEAD + |Encode(es)|
      invariant forall j | 0 <= j < i :: es[j].kind != kind
      decreases end - addr
    {
      assert i < |es|;
      Walk(mem, start, es, i);
      if Le32(mem[addr..addr + 4]) == kind {
        FirstIs(es, kind, i);
        break;
      }
      addr := Wrap32(addr + HEAD);
      addr := Wrap32(addr + Le32(mem[addr - 4..addr]));
      i := i + 1;
    }
    if addr >= end {
      addr := 0;
      Positive(es, i);
      FirstIs(es, kind, i);
    }
  }

  lemma TableEnds(es: seq<Entry>)
    requires Sizes(es)
    ensures Offset(es, 0) == 0 && Offset(es, |es|) == |Encode(es)|
  {
    OffsetEnd(es);
  }

  /** One entry as the walk sees it, and where it leads. */
  lemma Walk(mem: seq<byte>, start: nat, es: seq<Entry>, i: nat)
    requires Region(mem, start, es) && i < |es|
    ensures var a := start + HEAD + Offset(es, i);
            && a + HEAD <= |mem| && Le32(mem[a..a + 4]) == es[i].kind
            && a + HEAD + Le32(mem[a + 4..a + HEAD]) == start + HEAD + Offset(es, i + 1)
            && start + HEAD + Offset(es, i + 1) <= start + HEAD + |Encode(es)| < TWO32
  {
    hide Encode, Le32;
    EntryInMemory(mem, start, es, i);
  }

  lemma FirstIs(es: seq<Entry>, kind: u32, i: nat)
    requires i <= |es| && forall j | 0 <= j < i :: es[j].kind != kind
    requires i == |es| || es[i].kind == kind
    ensures First(es, kind) == i
  {
  }

  /** The end of the table is reached behind the last entry only. */
  lemma Positive(es: seq<Entry>, i: nat)
    requires Sizes(es) && i <= |es| && Offset(es, i) == |Encode(es)|
    ensures i == |es|
  {
    if i < |es| {
      EntryAt(es, i);
    }
  }

  /** ddev_read of an entry's head and value, as the parameter readers do after a search. */
  method ReadField(mem: seq<byte>, kind: u32, start: nat, ghost es: seq<Entry>) returns (v: Option<seq<byte>>)
    requires Region(mem, start, es)
    ensures v == Lookup(es, kind)
  {
    hide Region, Le32, Offset, Sizes;
    var addr := SearchByType(mem, kind, start, es);
    if addr == 0 { return None; }
    EntryInMemory(mem, start, es, First(es, kind));
    RegionSize(mem, start, es);
    var len := Le32(mem[addr + 4..addr + HEAD]);
    v := Some(mem[addr + HEAD..addr + HEAD + len]);
  }

  lemma RegionSize(mem: seq<byte>, start: nat, es: seq<Entry>)
    requires Region(mem, start, es)
    ensures Sizes(es) && start + HEAD + |Encode(es)| <= |mem| < TWO32
    ensures Le32(mem[start + 4..start + HEAD]) == |Encode(es)|
  {
  }

  // ---------------------------------------------------------------- the two-level configuration

  /** A group is an entry whose value is itself a table. */
  datatype Group = Group(kind: u32, entries: seq<Entry>)

  ghost predicate GroupsOk(gs: seq<Group>) {
    forall i | 0 <= i < |gs| :: Sizes(gs[i].entries) && |Encode(gs[i].entries)| < TWO32
  }

  ghost function Packed(gs: seq<Group>): (es: seq<Entry>)
    requires GroupsOk(gs)
    ensures |es| == |gs| && Sizes(es)
    ensures forall i | 0 <= i < |gs| :: es[i] == Entry(gs[i].kind, Encode(gs[i].entries))
  {
    seq(|gs|, i requires 0 <= i < |gs| && Sizes(gs[i].entries) => Entry(gs[i].kind, Encode(gs[i].entries)))
  }

  /** What a configuration tool writes to the partition at `start`. */
  ghost predicate Configured(mem: seq<byte>, start: nat, gs: seq<Group>) {
    && GroupsOk(gs)
    && Region(mem, start, Packed(gs))
  }

  /** The table mark at `start`: "TLV" and a zero. */
  predicate Marked(mem: seq<byte>, start: nat)
    requires start + HEAD <= |mem|
  {
    mem[start..start + 4] == [0x54, 0x4C, 0x56, 0]
  }

  lemma MarkIs(s: seq<byte>)
    requires |s| == 4
    ensures Le32(s) == BK_TLV_HEADER <==> s == [0x54, 0x4C, 0x56, 0]
  {
    if Le32(s) == BK_TLV_HEADER {
      LittleEndian(s);
    }
  }

  /** The image a configuration tool writes. */
  ghost function Table(gs: seq<Group>): seq<byte>
    requires GroupsOk(gs) && |Encode(Packed(gs))| < TWO32
  {
    EncodeHead(BK_TLV_HEADER, |Encode(Packed(gs))|) + Encode(Packed(gs))
  }

  /** Written anywhere in flash, it is what the readers below expect. */
  lemma TableIsConfigured(before: seq<byte>, gs: seq<Group>, behind: seq<byte>)
    requires GroupsOk(gs) && |before| + HEAD + |Encode(Packed(gs))| + |behind| < TWO32
    ensures Configured(before + Table(gs) + behind, |before|, gs)
    ensures Marked(before + Table(gs) + behind, |before|)
  {
    hide Encode, EncLe32, Le32;
    var es := Packed(gs);
    var body, mem, at := Encode(es), before + Table(gs) + behind, |before|;
    var k, l := EncLe32(BK_TLV_HEADER), EncLe32(|body|);
    assert mem == before + k + l + body + behind;
    assert mem[at..at + 4] == k && mem[at + 4..at + HEAD] == l;
    assert mem[at + HEAD..at + HEAD + |body|] == body;
    MarkIs(mem[at..at + 4]);
  }

  /** The first group of a type, read as a region of its own. */
  lemma GroupRegion(mem: seq<byte>, start: nat, gs: seq<Group>, i: nat)
    requires GroupsOk(gs) && Region(mem, start, Packed(gs)) && i < |gs|
    ensures Region(mem, start + HEAD + Offset(Packed(gs), i), gs[i].entries)
  {
    hide Encode, Le32, Offset, Sizes;
    var es := Packed(gs);
    EntryInMemory(mem, start, es, i);
    RegionSize(mem, start, es);
    assert es[i] == Entry(gs[i].kind, Encode(gs[i].entries));
  }

  /** The entries of the first group of a type, searched for one entry. */
  ghost function LookupIn(gs: seq<Group>, group: u32, kind: u32): Option<seq<byte>>
    requires GroupsOk(gs)
  {
    var i := First(Packed(gs), group);
    if i < |gs| then Lookup(gs[i].entries, kind) else None
  }

  ghost predicate HasGroup(gs: seq<Group>, group: u32)
    requires GroupsOk(gs)
  {
    First(Packed(gs), group) < |gs|
  }

  /** The first group of a type has entries of all types below `n`. */
  ghost predicate HasAll(gs: seq<Group>, group: u32, n: nat)
    requires GroupsOk(gs) && n < TWO32
  {
    HasGroup(gs, group) && forall k: u32 | 0 <= k < n :: Present(gs, group, k)
  }

  ghost predicate Present(gs: seq<Group>, group: u32, kind: u32)
    requires GroupsOk(gs)
  {
    LookupIn(gs, group, kind).Some?
  }

  /** search_opt_tab */
  method SearchOptTab(mem: seq<byte>, start: nat) returns (found: bool)
    requires start + HEAD <= |mem|
    ensures found <==> Marked(mem, start)
  {
    MarkIs(mem[start..start + 4]);
    found := Le32(mem[start..start + 4]) == BK_TLV_HEADER;
  }

  const ARCH_CONFIG_GENERAL: u32 := 0
  const ARCH_CONFIG_AP: u32 := 1

  /** general_param_t, each field as the bytes read into it. */
  datatype General = General(role: seq<byte>, dhcp: seq<byte>, ip: seq<byte>, mask: seq<byte>, gw: seq<byte>)

  /** app_demo_softap_get_general_paramters: all five parameters of the first GENERAL group,
      each the first entry of its type, or failure exactly when the table mark or one of
      them is missing. */
  method GetGeneral(mem: seq<byte>, start: nat, ghost gs: seq<Group>) returns (r: Option<General>)
    requires start + HEAD <= |mem| && (Marked(mem, start) ==> Configured(mem, start, gs))
    ensures r.Some? <==> Marked(mem, start) && HasAll(gs, ARCH_CONFIG_GENERAL, 5)
    ensures r.Some? ==>
              && LookupIn(gs, ARCH_CONFIG_GENERAL, 0) == Some(r.value.role)
              && LookupIn(gs, ARCH_CONFIG_GENERAL, 1) == Some(r.value.dhcp)
              && LookupIn(gs, ARCH_CONFIG_GENERAL, 2) == Some(r.value.ip)
              && LookupIn(gs, ARCH_CONFIG_GENERAL, 3) == Some(r.value.mask)
              && LookupIn(gs, ARCH_CONFIG_GENERAL, 4) == Some(r.value.gw)
  {
    hide Region, Sizes, Encode, Offset, Lookup, Le32, Marked;
    var tab := SearchOptTab(mem, start);
    if !tab { return None; }
    RegionSize(mem, start, Packed(gs));
    var at := SearchByType(mem, ARCH_CONFIG_GENERAL, start, Packed(gs));
    if at == 0 { return None; }
    ghost var i := First(Packed(gs), ARCH_CONFIG_GENERAL);
    ghost var es := gs[i].entries;
    GroupRegion(mem, start, gs, i);
    var role := ReadField(mem, 0, at, es);
    assert role.Some? <==> Present(gs, ARCH_CONFIG_GENERAL, 0);
    if role.None? { return None; }
    var dhcp := ReadField(mem, 1, at, es);
    assert dhcp.Some? <==> Present(gs, ARCH_CONFIG_GENERAL, 1);
    if dhcp.None? { return None; }
    var ip := ReadField(mem, 2, at, es);
    assert ip.Some? <==> Present(gs, ARCH_CONFIG_GENERAL, 2);
    if ip.None? { return None; }
    var mask := ReadField(mem, 3, at, es);
    assert mask.Some? <==> Present(gs, ARCH_CONFIG_GENERAL, 3);
    if mask.None? { return None; }
    var gw := ReadField(mem, 4, at, es);
    assert gw.Some? <==> Present(gs, ARCH_CONFIG_GENERAL, 4);
    if gw.None? { return None; }
    r := Some(General(role.value, dhcp.value, ip.value, mask.value, gw.value));
  }

  /** ap_param_t as filled by the reader; the password may be absent. */
  datatype Ap = Ap(bssid: seq<byte>, ssid: seq<byte>, channel: seq<byte>, mode: seq<byte>, key: Option<seq<byte>>)

  /** app_demo_softap_get_ap_paramters: as above for the AP group, with an optional password. */
  method GetAp(mem: seq<byte>, start: nat, ghost gs: seq<Group>) returns (r: Option<Ap>)
    requires start + HEAD <= |mem| && (Marked(mem, start) ==> Configured(mem, start, gs))
    ensures r.Some? <==> Marked(mem, start) && HasAll(gs, ARCH_CONFIG_AP, 4)
    ensures r.Some? ==>
              && LookupIn(gs, ARCH_CONFIG_AP, 0) == Some(r.value.bssid)
              && LookupIn(gs, ARCH_CONFIG_AP, 1) == Some(r.value.ssid)
              && LookupIn(gs, ARCH_CONFIG_AP, 2) == Some(r.value.channel)
              && LookupIn(gs, ARCH_CONFIG_AP, 3) == Some(r.value.mode)
              && LookupIn(gs, ARCH_CONFIG_AP, 4) == r.value.key
  {
    hide Region, Sizes, Encode, Offset, Lookup, Le32, Marked;
    var tab := SearchOptTab(mem, start);
    if !tab { return None; }
    RegionSize(mem, start, Packed(gs));
    var at := SearchByType(mem, ARCH_CONFIG_AP, start, Packed(gs));
    if at == 0 { return None; }
    ghost var i := First(Packed(gs), ARCH_CONFIG_AP);
    ghost var es := gs[i].entries;
    GroupRegion(mem, start, gs, i);
    var bssid := ReadField(mem, 0, at, es);
    assert bssid.Some? <==> Present(gs, ARCH_CONFIG_AP, 0);
    if bssid.None? { return None; }
    var ssid := ReadField(mem, 1, at, es);
    assert ssid.Some? <==> Present(gs, ARCH_CONFIG_AP, 1);
    if ssid.None? { return None; }
    var channel := ReadField(mem, 2, at, es);
    assert channel.Some? <==> Present(gs, ARCH_CONFIG_AP, 2);
    if channel.None? { return None; }
    var mode := ReadField(mem, 3, at, es);
    assert mode.Some? <==> Present(gs, ARCH_CONFIG_AP, 3);
    if mode.None? { return None; }
    var key := ReadField(mem, 4, at, es);
    r := Some(Ap(bssid.value, ssid.value, channel.value, mode.value, key));
  }
}
