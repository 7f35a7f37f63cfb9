/** The two tables that map identifiers to their gateways, by full identifier and by derived 32-bit one. */
module NidMapper {
  import opened Bytes

  const ZERO_NID: Nid := [0, 0, 0, 0, 0, 0, 0, 0, 0, 0, 0, 0, 0, 0, 0, 0]
  const ZERO_NID32: Nid32 := [0, 0, 0, 0]

  /** The 32-bit identifier: network 1, then the last three bytes. */
  function Nid2Nid32(nid: Nid): Nid32 {
    [1, nid[13], nid[14], nid[15]]
  }

  /** The copy-then-overwrite derivation. */
  method CopyNid2Nid32(nid: Nid) returns (r: Nid32)
    ensures r == Nid2Nid32(nid)
  {
    var aux := new byte[4](_ => 0);
    Store(aux, 0, nid[12..16]);
    aux[0] := 1;
    r := aux[..];
  }

  /** The DNS proxy's derivation: three bytes in base 256, plus 2^24, in network byte order. */
  method LoopNid2Nid32(nid: Nid) returns (r: Nid32)
    ensures r == Nid2Nid32(nid)
  {
    var last24bit: u32 := 0;
    var control := 13;
    while control < 16
      invariant 13 <= control <= 16
      invariant control == 13 ==> last24bit == 0
      invariant control == 14 ==> last24bit == nid[13]
      invariant control == 15 ==> last24bit == 256 * (nid[13] as int) + nid[14]
      invariant control == 16 ==> last24bit == 0x1_0000 * (nid[13] as int) + 256 * (nid[14] as int) + nid[15]
    {
      last24bit := last24bit * 256;
      last24bit := last24bit + nid[control];
      control := control + 1;
    }
    assert last24bit + 0x100_0000 == 0x1_0000 * (0x100 + nid[13]) + (0x100 * (nid[14] as int) + nid[15]);
    r := Be32(last24bit + 0x100_0000);
  }

  datatype Entry32 = Entry32(nid: Nid, nidgw: Nid)

  datatype Tables = Tables(byNid: map<Nid, Nid>, byNid32: map<Nid32, Entry32>)

  function Put(m: Tables, nid: Nid, nidgw: Nid): Tables {
    Tables(m.byNid[nid := nidgw], m.byNid32[Nid2Nid32(nid) := Entry32(nid, nidgw)])
  }

  /** The identifiers deleted are the never assigned globals of the mapper. */
  function Clear(m: Tables): Tables {
    Tables(m.byNid - {ZERO_NID}, m.byNid32 - {ZERO_NID32})
  }

  class Mapper {
    var nidTable: map<Nid, Nid>
    var nid32Table: map<Nid32, Entry32>

    function Value(): Tables
      reads this
    {
      Tables(nidTable, nid32Table)
    }

    constructor (presets: map<Nid32, Entry32>)
      ensures Value() == Tables(map[], presets)
    {
      nidTable, nid32Table := map[], presets;
    }

    method NewNMEntry32(nid32: Nid32, nid: Nid, nidgw: Nid)
      modifies `nid32Table
      ensures nid32Table == old(nid32Table)[nid32 := Entry32(nid, nidgw)]
    {
      if nid32 in nid32Table {
        var nme := nid32Table[nid32];
        nme := nme.(nid := nid);
        nme := nme.(nidgw := nidgw);
        nid32Table := nid32Table[nid32 := nme];
      } else {
        nid32Table := nid32Table[nid32 := Entry32(nid, nidgw)];
      }
    }

    method NewNMEntry(nid: Nid, nidgw: Nid)
      modifies this
      ensures Value() == Put(old(Value()), nid, nidgw)
    {
      nidTable := nidTable[nid := nidgw];
      var nid32 := CopyNid2Nid32(nid);
      NewNMEntry32(nid32, nid, nidgw);
    }

    /** The DNS proxy's two calls, the second under the identifier its own loop derives. */
    method RegisterResolved(nid: Nid, nidgw: Nid)
      modifies this
      ensures Value() == Put(old(Value()), nid, nidgw)
    {
      var nid32 := LoopNid2Nid32(nid);
      NewNMEntry(nid, nidgw);
      NewNMEntry32(nid32, nid, nidgw);
    }

    method UpdateNM(niddns: Nid, nidcore: Nid)
      modifies this
      ensures Value() == Put(Clear(old(Value())), niddns, nidcore)
    {
      nidTable := nidTable - {ZERO_NID};
      nid32Table := nid32Table - {ZERO_NID32};
      NewNMEntry(niddns, nidcore);
      var nid32 := CopyNid2Nid32(niddns);
      NewNMEntry32(nid32, niddns, nidcore);
    }
  }

  // ----- the tables over whole runs -----

  /** A registration, made after the mapper's globals were cleared or not. */
  datatype Act = Act(nid: Nid, nidgw: Nid, clears: bool)

  function Run(m: Tables, acts: seq<Act>): Tables {
    if acts == [] then m
    else
      var before := Run(m, acts[..|acts| - 1]);
      var a := acts[|acts| - 1];
      Put(if a.clears then Clear(before) else before, a.nid, a.nidgw)
  }

  /** The last registration of an identifier. */
  function LastOf(acts: seq<Act>, nid: Nid): Option<Act> {
    if acts == [] then None
    else if acts[|acts| - 1].nid == nid then Some(acts[|acts| - 1])
    else LastOf(acts[..|acts| - 1], nid)
  }

  /** The last registration of any identifier with a 32-bit key. */
  function LastUnder(acts: seq<Act>, k: Nid32): Option<Act> {
    if acts == [] then None
    else if Nid2Nid32(acts[|acts| - 1].nid) == k then Some(acts[|acts| - 1])
    else LastUnder(acts[..|acts| - 1], k)
  }

  /** What the runs say: each table holds the last registration for its key. */
  lemma {:induction false} TablesFollowRun(presets: map<Nid32, Entry32>, acts: seq<Act>, nid: Nid)
    requires nid != ZERO_NID
    ensures var m := Run(Tables(map[], presets), acts); var k := Nid2Nid32(nid);
            var own := LastOf(acts, nid); var key := LastUnder(acts, k);
            && (nid in m.byNid <==> own.Some?) && (own.Some? ==> m.byNid[nid] == own.value.nidgw && key.Some?)
            && (key.Some? ==> k in m.byNid32 && m.byNid32[k] == Entry32(key.value.nid, key.value.nidgw) && Nid2Nid32(key.value.nid) == k)
  {
    if acts != [] {
      TablesFollowRun(presets, acts[..|acts| - 1], nid);
    }
  }

  /**
   The tables agree: every non-zero identifier registered is found under its 32-bit key, where the entry
   is the latest registered identifier with the same last three bytes, with the gateway that identifier
   has in the other table.
   */
  lemma TablesAgree(presets: map<Nid32, Entry32>, acts: seq<Act>, nid: Nid)
    requires nid != ZERO_NID && nid in Run(Tables(map[], presets), acts).byNid
    ensures var m := Run(Tables(map[], presets), acts); var k := Nid2Nid32(nid);
            && k in m.byNid32
            && var e := m.byNid32[k];
            && e.nid[13..] == nid[13..]
            && LastUnder(acts, k) != None && e.nid == LastUnder(acts, k).value.nid
            && (e.nid != ZERO_NID ==> e.nid in m.byNid && m.byNid[e.nid] == e.nidgw)
  {
    var m := Run(Tables(map[], presets), acts);
    var k := Nid2Nid32(nid);
    TablesFollowRun(presets, acts, nid);
    var e := m.byNid32[k];
    if e.nid != ZERO_NID {
      TablesFollowRun(presets, acts, e.nid);
      LastOwn(acts, k);
    }
  }

  /** The last registration under a key is the last registration of its own identifier. */
  lemma {:induction false} LastOwn(acts: seq<Act>, k: Nid32)
    requires LastUnder(acts, k).Some?
    ensures var r := LastUnder(acts, k).value; LastOf(acts, r.nid) == Some(r) && Nid2Nid32(r.nid) == k
  {
    if Nid2Nid32(acts[|acts| - 1].nid) != k {
      LastOwn(acts[..|acts| - 1], k);
    }
  }

  /** An update clears the zero identifiers of both tables, whatever was registered or preset under them. */
  lemma UpdateClearsZero(presets: map<Nid32, Entry32>, acts: seq<Act>, a: Act)
    requires a.clears
    ensures var m := Run(Tables(map[], presets), acts + [a]);
            && (ZERO_NID in m.byNid <==> a.nid == ZERO_NID)
            && [0, 0, 0, 0] !in m.byNid32
            && forall k | k in m.byNid32 && k[0] != 1 :: k in presets && m.byNid32[k] == presets[k] && k != [0, 0, 0, 0]
  {
    assert (acts + [a])[..|acts|] == acts;
    PresetsStay(presets, acts);
  }

  /** Under keys no identifier derives, only the presets are ever found. */
  lemma {:induction false} PresetsStay(presets: map<Nid32, Entry32>, acts: seq<Act>)
    ensures var m := Run(Tables(map[], presets), acts);
            forall k | k in m.byNid32 && k[0] != 1 :: k in presets && m.byNid32[k] == presets[k]
  {
    if acts != [] {
      PresetsStay(presets, acts[..|acts| - 1]);
    }
  }
}
