/**
 The DNS proxy's rewriting: an address question goes out as a TXT question, and the TXT answer is
 turned in place into the address record asked for, the authority record moving up behind it.
 */
module DnsRewrite {
  import opened Bits
  import opened Bytes

  const BUFFER_LENGTH := 512
  const HEADER := 12
  const NAME_SPACE := 256
  const A: u16 := 1
  const TXT: u16 := 16
  const AAAA: u16 := 28

  /**
   A message with one question, one answer and one authority record, all after RFC 1035, section 4.1;
   `rest` fills the buffer. The answer names its owner by a two-byte pointer, and so does the authority.
   */
  datatype Message = Message(header: seq<byte>, name: seq<byte>, qtype: u16, qclass: seq<byte>,
                             aname: seq<byte>, atype: u16, aclassTtl: seq<byte>, rdata: seq<byte>,
                             nsFixed: seq<byte>, nsData: seq<byte>, rest: seq<byte>) {
    predicate Valid() {
      && |header| == HEADER && 0 !in name && |name| < NAME_SPACE
      && |qclass| == 2 && |aname| == 2 && |aclassTtl| == 6 && |nsFixed| == 10
      && |rdata| < 0x1_0000 && |nsData| <= NAME_SPACE
    }

    function Question(): nat {
      HEADER + |name| + 1
    }

    /** Up to the record data of the answer. */
    function Front(): seq<byte> {
      header + name + [0] + Be16(qtype) + qclass + aname + Be16(atype) + aclassTtl
    }

    function Authority(): seq<byte>
      requires Valid()
    {
      nsFixed + Be16(|nsData|) + nsData
    }

    function Bytes(): seq<byte>
      requires Valid()
    {
      Front() + (Be16(|rdata|) + rdata) + Authority() + rest
    }

    /** The response code in the low four bits of the flags. */
    function Rcode(): byte
      requires Valid()
    {
      header[3] % 16
    }
  }

  /** The response code is what section 4.1.1 of RFC 1035 has in the lowest four bits of the 16-bit flags. */
  lemma RcodeOfFlags(m: Message)
    requires m.Valid()
    ensures m.Rcode() == BitAnd(15, FromBe16(m.header[2..4]))
  {
    assert Pow2(4) == 16;
    LowOnes(4, FromBe16(m.header[2..4]));
  }

  function Zeros(n: nat): (s: seq<byte>)
    ensures |s| == n && forall i | 0 <= i < n :: s[i] == 0
  {
    seq(n, _ => 0)
  }

  /** The length of the zero-terminated string at `off`. */
  method StrLen(b: array<byte>, off: nat) returns (n: nat)
    requires off <= b.Length && exists i :: off <= i < b.Length && b[i] == 0
    ensures off + n < b.Length && b[off + n] == 0 && forall i | off <= i < off + n :: b[i] != 0
  {
    n := 0;
    while b[off + n] != 0
      invariant off + n < b.Length && forall i | off <= i < off + n :: b[i] != 0
      invariant exists i :: off + n <= i < b.Length && b[i] == 0
      decreases b.Length - n
    {
      n := n + 1;
    }
  }

  /** Every part of `m` stands at its offset in `s`. */
  ghost predicate HasParts(m: Message, s: seq<byte>)
    requires m.Valid()
  {
    var q := m.Question();
    && |s| >= q + 28 + |m.rdata| + |m.nsData|
    && s[..q] == m.header + m.name + [0] && s[q..q + 2] == Be16(m.qtype) && s[q + 2..q + 6] == m.qclass + m.aname
    && s[q + 6..q + 8] == Be16(m.atype) && s[q + 8..q + 14] == m.aclassTtl
    && HasRecord(m, s, q + 14)
  }

  /** From the answer's length on. */
  ghost predicate HasRecord(m: Message, s: seq<byte>, p: nat)
    requires m.Valid() && |s| >= p + 14 + |m.rdata| + |m.nsData|
  {
    var l := |m.rdata|;
    && s[p..p + 2] == Be16(l) && s[p + 2..p + 2 + l] == m.rdata
    && s[p + 2 + l..p + 14 + l] == m.nsFixed + Be16(|m.nsData|)
    && s[p + 14 + l..p + 14 + l + |m.nsData|] == m.nsData
    && s[p + 14 + l + |m.nsData|..] == m.rest
  }

  /** Where things stand in the buffer of a valid message. */
  lemma Offsets(m: Message)
    requires m.Valid()
    ensures HasParts(m, m.Bytes())
  {
    var s, q := m.Bytes(), m.Question();
    var f := m.Front();
    assert f[..q] == m.header + m.name + [0] && f[q..q + 2] == Be16(m.qtype) && f[q + 2..q + 6] == m.qclass + m.aname;
    assert f[q + 6..q + 8] == Be16(m.atype) && f[q + 8..q + 14] == m.aclassTtl;
    assert s[..q + 14] == f;
    assert s[..q] == f[..q] && s[q..q + 2] == f[q..q + 2] && s[q + 2..q + 6] == f[q + 2..q + 6];
    assert s[q + 6..q + 8] == f[q + 6..q + 8] && s[q + 8..q + 14] == f[q + 8..q + 14];
  }

  /** The name ends at its terminating zero and nowhere before. */
  lemma NameInPlace(m: Message, s: seq<byte>)
    requires m.Valid() && HasParts(m, s)
    ensures var q := m.Question(); s[q - 1] == 0 && s[3] == m.header[3] && forall i | HEADER <= i < q - 1 :: s[i] != 0
  {
    var q := m.Question();
    var head := m.header + m.name + [0];
    assert forall i | 0 <= i < q :: s[i] == s[..q][i] == head[i];
    assert forall i | HEADER <= i < q - 1 :: head[i] == m.name[i - HEADER];
  }

  /** A buffer is a message's bytes as soon as its parts are. */
  lemma Assembled(m: Message, s: seq<byte>)
    requires m.Valid() && HasParts(m, s)
    ensures s == m.Bytes()
  {
    var q := m.Question();
    FrontAssembled(m, s);
    RecordAssembled(m, s, q + 14);
    hide HasParts, HasRecord, Message.Front, Message.Authority;
    assert s == s[..q + 14] + s[q + 14..];
    assert m.Bytes() == m.Front() + ((Be16(|m.rdata|) + m.rdata) + m.Authority() + m.rest);
  }

  lemma FrontAssembled(m: Message, s: seq<byte>)
    requires m.Valid() && HasParts(m, s)
    ensures s[..m.Question() + 14] == m.Front()
  {
    hide HasRecord;
    var q := m.Question();
    assert s[..q + 14] == s[..q] + s[q..q + 2] + s[q + 2..q + 6] + s[q + 6..q + 8] + s[q + 8..q + 14];
  }

  lemma RecordAssembled(m: Message, s: seq<byte>, p: nat)
    requires m.Valid() && |s| >= p + 14 + |m.rdata| + |m.nsData| && HasRecord(m, s, p)
    ensures s[p..] == (Be16(|m.rdata|) + m.rdata) + m.Authority() + m.rest
  {
    var l := |m.rdata|;
    var e := p + 14 + l + |m.nsData|;
    assert s[p + 2 + l..e] == s[p + 2 + l..p + 14 + l] + s[p + 14 + l..e] == m.Authority();
    assert s[p..] == (s[p..p + 2] + s[p + 2..p + 2 + l]) + s[p + 2 + l..e] + s[e..];
  }

  function TypeAt(s: seq<byte>, q: nat): u16
    requires q + 2 <= |s|
  {
    FromBe16(s[q..q + 2])
  }

  /** The query as it is sent on: an address question becomes a TXT question. */
  function SentQuery(s: seq<byte>, q: nat): seq<byte>
    requires q + 2 <= |s|
  {
    s[..q] + Be16(if TypeAt(s, q) == A || TypeAt(s, q) == AAAA then TXT else TypeAt(s, q)) + s[q + 2..]
  }

  /** Types 1 and 28, those of addresses, go out as 16; every other type, and every other byte, as it came. */
  lemma SentQueryMeans(s: seq<byte>, q: nat)
    requires q + 2 <= |s|
    ensures |SentQuery(s, q)| == |s|
    ensures SentQuery(s, q)[q..q + 2] == if s[q..q + 2] == [0, 1] || s[q..q + 2] == [0, 28] then [0, 16] else s[q..q + 2]
    ensures forall i | 0 <= i < |s| && i != q && i != q + 1 :: SentQuery(s, q)[i] == s[i]
  {
    assert Be16(TypeAt(s, q)) == s[q..q + 2];
  }

  /** Replaces an address question's type by TXT and returns the type asked for. */
  method ModifyDnsQuery(b: array<byte>, ghost n: nat) returns (queryType: u16)
    requires b.Length == BUFFER_LENGTH && n < NAME_SPACE
    requires b[HEADER + n] == 0 && forall i | HEADER <= i < HEADER + n :: b[i] != 0
    modifies b
    ensures var q := HEADER + n + 1;
            queryType == TypeAt(old(b[..]), q) && b[..] == SentQuery(old(b[..]), q)
  {
    var len := StrLen(b, HEADER);
    assert len == n;
    var q := HEADER + len + 1;
    queryType := FromBe16(b[q..q + 2]);
    assert b[..] == b[..q] + b[q..q + 2] + b[q + 2..];
    if queryType == A || queryType == AAAA {
      Store(b, q, Be16(TXT));
      assert b[..] == b[..q] + b[q..q + 2] + b[q + 2..];
    }
  }

  /** The record data installed for a question type; other types keep the answer. */
  function NewData(m: Message, nid32addr: Nid32, nidaddr: Nid, qType: u16): seq<byte> {
    if qType == A then nid32addr else if qType == AAAA then nidaddr else m.rdata
  }

  /** The message a response becomes: the question as it was asked, an address answer, the same authority. */
  function Rewritten(m: Message, nid32addr: Nid32, nidaddr: Nid, qType: u16, behind: seq<byte>): (r: Message)
    requires m.Valid()
    ensures r.Valid() && r.Question() == m.Question() && r.rdata == NewData(m, nid32addr, nidaddr, qType)
  {
    var ours := qType == A || qType == AAAA;
    m.(qtype := if ours then qType else m.qtype, atype := if ours then qType else m.atype,
       rdata := NewData(m, nid32addr, nidaddr, qType),
       rest := Zeros(NAME_SPACE - |m.nsData|) + behind)
  }

  /** The answer's type, data and length. */
  method PutAnswer(b: array<byte>, q: nat, code: u16, data: seq<byte>)
    requires q + 16 + |data| <= b.Length && |data| < 0x1_0000
    modifies b
    ensures b[q + 6..q + 8] == Be16(code) && b[q + 14..q + 16] == Be16(|data|) && b[q + 16..q + 16 + |data|] == data
    ensures b[..q + 6] == old(b[..q + 6]) && b[q + 8..q + 14] == old(b[q + 8..q + 14])
    ensures b[q + 16 + |data|..] == old(b[q + 16 + |data|..])
  {
    Store(b, q + 6, Be16(code));
    Store(b, q + 16, data);
    Store(b, q + 14, Be16(|data|));
  }

  /** The authority record: its fixed fields, a cleared name space, then its data. */
  method PutAuthority(b: array<byte>, at: nat, fixed: seq<byte>, data: seq<byte>)
    requires |fixed| == 12 && |data| <= NAME_SPACE && at + 12 + NAME_SPACE <= b.Length
    modifies b
    ensures b[at..at + 12] == fixed && b[at + 12..at + 12 + |data|] == data
    ensures b[at + 12 + |data|..at + 12 + NAME_SPACE] == Zeros(NAME_SPACE - |data|)
    ensures b[..at] == old(b[..at]) && b[at + 12 + NAME_SPACE..] == old(b[at + 12 + NAME_SPACE..])
  {
    Store(b, at, fixed);
    ClearAndStore(b, at + 12, data);
    assert b[at..at + 12] == fixed;
  }

  /** A cleared name space with `data` at its start. */
  method ClearAndStore(b: array<byte>, off: nat, data: seq<byte>)
    requires |data| <= NAME_SPACE && off + NAME_SPACE <= b.Length
    modifies b
    ensures b[off..off + |data|] == data && b[off + |data|..off + NAME_SPACE] == Zeros(NAME_SPACE - |data|)
    ensures forall i | 0 <= i < off || off + NAME_SPACE <= i < b.Length :: b[i] == old(b[i])
  {
    Store(b, off, Zeros(NAME_SPACE));
    assert forall i | off <= i < off + NAME_SPACE :: b[i] == b[off..off + NAME_SPACE][i - off] == 0;
    Store(b, off, data);
  }

  /** Where the rewriting stops writing: the name space of the authority record is cleared in full. */
  function WritesTo(m: Message, nid32addr: Nid32, nidaddr: Nid, qType: u16): nat {
    m.Question() + 28 + |NewData(m, nid32addr, nidaddr, qType)| + NAME_SPACE
  }

  /** `b` is the memory from the start of the buffer on, the buffer being its first BUFFER_LENGTH bytes. */
  method BuildDnsResponse(b: array<byte>, nid32addr: Nid32, nidaddr: Nid, qType: u16, ghost m: Message) returns (r: int)
    requires m.Valid() && BUFFER_LENGTH <= b.Length && b[..] == m.Bytes()
    requires m.qtype == TXT && m.Rcode() == 0 ==> WritesTo(m, nid32addr, nidaddr, qType) <= b.Length
    modifies b
    ensures r == if m.qtype == TXT && m.Rcode() == 0 then 0 else -1
    ensures r == 0 ==>
              b[..] == Rewritten(m, nid32addr, nidaddr, qType, old(b[WritesTo(m, nid32addr, nidaddr, qType)..])).Bytes()
    ensures r != 0 ==>
              b[..] == m.(qtype := if m.qtype == TXT && (qType == A || qType == AAAA) then qType else m.qtype).Bytes()
  {
    hide Message.Bytes, Message.Front, Rewritten;
    var q, queryType, fixed, nsNs := ReadParts(b, m);
    var rcode := b[3] % 16;
    ghost var m1 := m;
    if queryType == TXT && (qType == A || qType == AAAA) {
      m1 := m.(qtype := qType);
      SetType(b, q, qType, m);
    }
    if queryType != TXT || rcode != 0 {
      return -1;
    }
    ghost var end := WritesTo(m, nid32addr, nidaddr, qType);
    assert b[end..] == b[q + 2..][end - (q + 2)..] == old(b[q + 2..])[end - (q + 2)..] == old(b[end..]);
    if qType == A || qType == AAAA {
      RewrittenAnyType(m, nid32addr, nidaddr, qType, b[end..]);
    }
    Install(b, q, fixed, nsNs, nid32addr, nidaddr, qType, m1);
    return 0;
  }

  lemma RewrittenAnyType(m: Message, nid32addr: Nid32, nidaddr: Nid, qType: u16, behind: seq<byte>)
    requires m.Valid() && (qType == A || qType == AAAA)
    ensures Rewritten(m.(qtype := qType), nid32addr, nidaddr, qType, behind) == Rewritten(m, nid32addr, nidaddr, qType, behind)
  {
  }

  /** What is saved of the message before anything is overwritten. */
  method ReadParts(b: array<byte>, ghost m: Message) returns (q: nat, queryType: u16, fixed: seq<byte>, nsNs: seq<byte>)
    requires m.Valid() && b[..] == m.Bytes()
    ensures q == m.Question() && queryType == m.qtype && b.Length > 3 && b[3] == m.header[3]
    ensures fixed == m.nsFixed + Be16(|m.nsData|) && nsNs == m.nsData
  {
    Offsets(m);
    hide Message.Bytes, HasRecord;
    q, queryType := FindQuestion(b, m);
    fixed, nsNs := ReadRecord(b, q + 14, m);
  }

  /** The question's type stands behind the zero that ends its name. */
  method FindQuestion(b: array<byte>, ghost m: Message) returns (q: nat, queryType: u16)
    requires m.Valid() && HasParts(m, b[..])
    ensures q == m.Question() && queryType == m.qtype && b.Length > 3 && b[3] == m.header[3]
  {
    NameInPlace(m, b[..]);
    assert b[..][m.Question() - 1] == b[m.Question() - 1] == 0;
    assert forall i | HEADER <= i < m.Question() - 1 :: b[i] == b[..][i];
    assert b[..][3] == b[3];
    ghost var t := b[..][m.Question()..m.Question() + 2];
    assert t == Be16(m.qtype);
    hide HasParts;
    var n := StrLen(b, HEADER);
    q := HEADER + n + 1;
    assert q == m.Question();
    assert b[q..q + 2] == t;
    queryType := FromBe16(b[q..q + 2]);
  }

  /** The authority record behind the answer whose length stands at `p`. */
  method ReadRecord(b: array<byte>, p: nat, ghost m: Message) returns (fixed: seq<byte>, nsNs: seq<byte>)
    requires m.Valid() && b.Length >= p + 14 + |m.rdata| + |m.nsData| && HasRecord(m, b[..], p)
    ensures fixed == m.nsFixed + Be16(|m.nsData|) && nsNs == m.nsData
  {
    assert b[p..p + 2] == b[..][p..p + 2];
    var len: nat := FromBe16(b[p..p + 2]);
    assert len == |m.rdata|;
    fixed := b[p + 2 + len..p + 14 + len];
    assert fixed == b[..][p + 2 + len..p + 14 + len];
    assert fixed[10..] == Be16(|m.nsData|);
    var nsLen: nat := FromBe16(fixed[10..]);
    assert nsLen == |m.nsData|;
    nsNs := b[p + 14 + len..p + 14 + len + nsLen];
    assert nsNs == b[..][p + 14 + len..p + 14 + len + nsLen];
  }

  /** Restores the question's type. */
  method SetType(b: array<byte>, q: nat, qType: u16, ghost m: Message)
    requires m.Valid() && b[..] == m.Bytes() && q == m.Question()
    modifies b
    ensures b[..] == m.(qtype := qType).Bytes() && b.Length >= q + 2
    ensures b[q + 2..] == old(b[q + 2..]) && b[3] == old(b[3])
  {
    Offsets(m);
    ghost var s := b[..];
    Store(b, q, Be16(qType));
    assert b[..][..q] == s[..q] && b[..][q + 2..] == s[q + 2..];
    hide Message.Bytes, HasParts;
    RetypedParts(m, qType, s, b[..]);
    Assembled(m.(qtype := qType), b[..]);
  }

  lemma RetypedParts(m: Message, qType: u16, s: seq<byte>, s': seq<byte>)
    requires m.Valid() && HasParts(m, s) && |s'| == |s|
    requires var q := m.Question(); s'[..q] == s[..q] && s'[q..q + 2] == Be16(qType) && s'[q + 2..] == s[q + 2..]
    ensures HasParts(m.(qtype := qType), s')
  {
    var q := m.Question();
    assert forall i | q + 2 <= i < |s| :: s'[i] == s'[q + 2..][i - (q + 2)] == s[i];
    assert s'[q + 2..q + 6] == s[q + 2..q + 6] && s'[q + 6..q + 8] == s[q + 6..q + 8];
    assert s'[q + 8..q + 14] == s[q + 8..q + 14];
    SameRecord(m, s, s', q + 14);
  }

  lemma SameRecord(m: Message, s: seq<byte>, s': seq<byte>, p: nat)
    requires m.Valid() && |s'| == |s| >= p + 14 + |m.rdata| + |m.nsData| && HasRecord(m, s, p)
    requires forall i | p <= i < |s| :: s'[i] == s[i]
    ensures HasRecord(m, s', p)
    ensures forall qType: u16 :: HasRecord(m.(qtype := qType), s', p)
  {
    var l, n := |m.rdata|, |m.nsData|;
    assert s'[p..p + 2] == s[p..p + 2] && s'[p + 2..p + 2 + l] == s[p + 2..p + 2 + l];
    assert s'[p + 2 + l..p + 14 + l] == s[p + 2 + l..p + 14 + l];
    assert s'[p + 14 + l..p + 14 + l + n] == s[p + 14 + l..p + 14 + l + n] && s'[p + 14 + l + n..] == s[p + 14 + l + n..];
  }

  /** The answer first, then the authority record behind its new end. */
  method Install(b: array<byte>, q: nat, fixed: seq<byte>, nsNs: seq<byte>, nid32addr: Nid32, nidaddr: Nid, qType: u16, ghost m: Message)
    requires m.Valid() && b[..] == m.Bytes() && q == m.Question()
    requires fixed == m.nsFixed + Be16(|m.nsData|) && nsNs == m.nsData
    requires WritesTo(m, nid32addr, nidaddr, qType) <= b.Length
    requires qType == A || qType == AAAA ==> m.qtype == qType
    modifies b
    ensures b[..] == Rewritten(m, nid32addr, nidaddr, qType,
                       old(b[WritesTo(m, nid32addr, nidaddr, qType)..])).Bytes()
  {
    hide Message.Bytes, HasParts, HasAnswer, Rewritten;
    Offsets(m);
    ghost var s := b[..];
    ghost var behind := s[WritesTo(m, nid32addr, nidaddr, qType)..];
    var len := AnswerFor(b, q, nid32addr, nidaddr, qType, m, behind);
    ghost var s1 := b[..];
    hide NewData;
    TailOfTail(s, s1, q + 16 + len, 12 + NAME_SPACE);
    PutAuthority(b, q + 16 + len, fixed, nsNs);
    InstalledParts(m, nid32addr, nidaddr, qType, s1, b[..], fixed, behind);
    Assembled(Rewritten(m, nid32addr, nidaddr, qType, behind), b[..]);
  }

  lemma TailOfTail(s: seq<byte>, s1: seq<byte>, i: nat, n: nat)
    requires |s| == |s1| >= i + n && s[i..] == s1[i..]
    ensures s[i + n..] == s1[i + n..]
  {
    assert s[i + n..] == s[i..][n..] && s1[i + n..] == s1[i..][n..];
  }

  lemma InstalledParts(m: Message, nid32addr: Nid32, nidaddr: Nid, qType: u16, s1: seq<byte>, s2: seq<byte>, fixed: seq<byte>, behind: seq<byte>)
    requires m.Valid()
    requires var m' := Rewritten(m, nid32addr, nidaddr, qType, behind); var at := m.Question() + 16 + |NewData(m, nid32addr, nidaddr, qType)|;
             && HasAnswer(m', s1) && fixed == m.nsFixed + Be16(|m.nsData|)
             && |s1| == |s2| >= at + 12 + NAME_SPACE
             && s2[..at] == s1[..at]
             && s2[at..at + 12] == fixed && s2[at + 12..at + 12 + |m.nsData|] == m.nsData
             && s2[at + 12 + |m.nsData|..at + 12 + NAME_SPACE] == Zeros(NAME_SPACE - |m.nsData|)
             && s2[at + 12 + NAME_SPACE..] == behind
    ensures HasParts(Rewritten(m, nid32addr, nidaddr, qType, behind), s2)
  {
    hide HasAnswer, HasParts;
    AuthorityBehind(Rewritten(m, nid32addr, nidaddr, qType, behind), s1, s2, fixed, behind);
  }

  /** The address answer, or the one that stands there; returns its length as the buffer has it. */
  method AnswerFor(b: array<byte>, q: nat, nid32addr: Nid32, nidaddr: Nid, qType: u16, ghost m: Message, ghost behind: seq<byte>) returns (len: nat)
    requires m.Valid() && HasParts(m, b[..]) && q == m.Question() && (qType == A || qType == AAAA ==> m.qtype == qType)
    requires q + 16 + |NewData(m, nid32addr, nidaddr, qType)| <= b.Length
    modifies b
    ensures len == |NewData(m, nid32addr, nidaddr, qType)|
    ensures HasAnswer(Rewritten(m, nid32addr, nidaddr, qType, behind), b[..])
    ensures b[q + 16 + len..] == old(b[q + 16 + len..])
  {
    hide HasParts, HasAnswer, Rewritten;
    ghost var s := b[..];
    LengthField(m, s);
    if qType == A {
      PutAnswer(b, q, A, nid32addr);
    }
    if qType == AAAA {
      PutAnswer(b, q, AAAA, nidaddr);
    }
    AnswerParts(m, nid32addr, nidaddr, qType, behind, s, b[..]);
    len := FromBe16(b[q + 14..q + 16]);
  }

  lemma LengthField(m: Message, s: seq<byte>)
    requires m.Valid() && HasParts(m, s)
    ensures var q := m.Question(); |s| >= q + 16 && s[q + 14..q + 16] == Be16(|m.rdata|)
  {
  }

  lemma AnswerParts(m: Message, nid32addr: Nid32, nidaddr: Nid, qType: u16, behind: seq<byte>, s: seq<byte>, s1: seq<byte>)
    requires m.Valid() && HasParts(m, s) && (qType == A || qType == AAAA ==> m.qtype == qType)
    requires var q, data := m.Question(), NewData(m, nid32addr, nidaddr, qType);
             if qType == A || qType == AAAA then
               && |s1| >= q + 16 + |data| && s1[q + 6..q + 8] == Be16(qType) && s1[q + 14..q + 16] == Be16(|data|)
               && s1[q + 16..q + 16 + |data|] == data
               && s1[..q + 6] == s[..q + 6] && s1[q + 8..q + 14] == s[q + 8..q + 14]
             else s1 == s
    ensures HasAnswer(Rewritten(m, nid32addr, nidaddr, qType, behind), s1)
  {
    var q := m.Question();
    if qType == A || qType == AAAA {
      assert forall i | 0 <= i < q + 6 :: s1[i] == s1[..q + 6][i] == s[i];
      assert s1[..q] == s[..q] && s1[q..q + 2] == s[q..q + 2] && s1[q + 2..q + 6] == s[q + 2..q + 6];
    }
  }

  /** Everything before the authority record stands in its place. */
  ghost predicate HasAnswer(m: Message, s: seq<byte>)
    requires m.Valid()
  {
    var q := m.Question();
    && |s| >= q + 16 + |m.rdata|
    && s[..q] == m.header + m.name + [0] && s[q..q + 2] == Be16(m.qtype) && s[q + 2..q + 6] == m.qclass + m.aname
    && s[q + 6..q + 8] == Be16(m.atype) && s[q + 8..q + 14] == m.aclassTtl
    && s[q + 14..q + 16] == Be16(|m.rdata|) && s[q + 16..q + 16 + |m.rdata|] == m.rdata
  }

  lemma AuthorityBehind(m: Message, s1: seq<byte>, s2: seq<byte>, fixed: seq<byte>, behind: seq<byte>)
    requires m.Valid() && |s1| == |s2| >= m.Question() + 28 + |m.rdata| + NAME_SPACE
    requires HasAnswer(m, s1)
    requires m.rest == Zeros(NAME_SPACE - |m.nsData|) + behind && fixed == m.nsFixed + Be16(|m.nsData|)
    requires var at := m.Question() + 16 + |m.rdata|;
             && s2[..at] == s1[..at]
             && s2[at..at + 12] == fixed && s2[at + 12..at + 12 + |m.nsData|] == m.nsData
             && s2[at + 12 + |m.nsData|..at + 12 + NAME_SPACE] == Zeros(NAME_SPACE - |m.nsData|)
             && s2[at + 12 + NAME_SPACE..] == behind
    ensures HasParts(m, s2)
  {
    var q := m.Question();
    var at := q + 16 + |m.rdata|;
    SameSlices(s1, s2, q, |m.rdata|);
    var e := at + 12 + |m.nsData|;
    assert s2[e..] == s2[e..at + 12 + NAME_SPACE] + s2[at + 12 + NAME_SPACE..];
  }

  lemma SameSlices(s1: seq<byte>, s2: seq<byte>, q: nat, l: nat)
    requires |s1| >= q + 16 + l && |s2| >= q + 16 + l && s1[..q + 16 + l] == s2[..q + 16 + l]
    ensures s1[..q] == s2[..q] && s1[q..q + 2] == s2[q..q + 2] && s1[q + 2..q + 6] == s2[q + 2..q + 6]
    ensures s1[q + 6..q + 8] == s2[q + 6..q + 8] && s1[q + 8..q + 14] == s2[q + 8..q + 14]
    ensures s1[q + 14..q + 16] == s2[q + 14..q + 16] && s1[q + 16..q + 16 + l] == s2[q + 16..q + 16 + l]
  {
    assert forall i | 0 <= i < q + 16 + l :: s1[i] == s1[..q + 16 + l][i] == s2[i];
  }

  // ----- query and response together -----

  /** `s` and `t` ask for the same name: both are zero-terminated at the same place. */
  lemma SameName(s: seq<byte>, m: Message, n: nat)
    requires m.Valid() && HEADER + n + 5 <= |s| && HEADER + n + 5 <= |m.Bytes()|
    requires s[HEADER + n] == 0 && forall i | HEADER <= i < HEADER + n :: s[i] != 0
    requires m.Bytes()[HEADER..HEADER + n + 5] == SentQuery(s, HEADER + n + 1)[HEADER..HEADER + n + 5]
    ensures m.Question() == HEADER + n + 1
  {
    var q := HEADER + n + 1;
    SentName(m.Bytes(), s, q);
    Offsets(m);
    NameInPlace(m, m.Bytes());
    hide Message.Bytes, HasParts, HasRecord, SentQuery;
    assert m.Bytes()[HEADER + n] == 0;
  }

  /** Up to the type, what was sent on is what was asked. */
  lemma SentName(t: seq<byte>, s: seq<byte>, q: nat)
    requires HEADER <= q && q + 4 <= |s| && q + 4 <= |t| && t[HEADER..q + 4] == SentQuery(s, q)[HEADER..q + 4]
    ensures forall i | HEADER <= i < q :: t[i] == s[i]
    ensures t[q..q + 2] == SentQuery(s, q)[q..q + 2] && t[q + 2..q + 4] == s[q + 2..q + 4]
  {
    var u := SentQuery(s, q);
    assert forall i | HEADER <= i < q + 4 :: t[i] == t[HEADER..q + 4][i - HEADER] == u[i];
  }

  /**
   For every query and every rewritten response to what was sent on for it: the question section is the
   client's own again, byte for byte, and an address answer has the type that was asked for.
   */
  lemma QuestionRestored(s: seq<byte>, n: nat, m: Message, nid32addr: Nid32, nidaddr: Nid, behind: seq<byte>)
    requires m.Valid() && m.qtype == TXT && HEADER + n + 5 <= |s| && HEADER + n + 5 <= |m.Bytes()|
    requires s[HEADER + n] == 0 && forall i | HEADER <= i < HEADER + n :: s[i] != 0
    requires m.Bytes()[HEADER..HEADER + n + 5] == SentQuery(s, HEADER + n + 1)[HEADER..HEADER + n + 5]
    ensures var q := HEADER + n + 1; var t := Rewritten(m, nid32addr, nidaddr, TypeAt(s, q), behind).Bytes();
            && |t| >= q + 8 && t[HEADER..q + 4] == s[HEADER..q + 4]
            && (TypeAt(s, q) != TXT ==> t[q + 6..q + 8] == s[q..q + 2])
  {
    var q := HEADER + n + 1;
    SameName(s, m, n);
    var r := Rewritten(m, nid32addr, nidaddr, TypeAt(s, q), behind);
    Offsets(m);
    Offsets(r);
    SentName(m.Bytes(), s, q);
    hide Message.Bytes, HasRecord, SentQuery, TypeAt, Be16;
    SentType(s, q);
    SameQuestion(s, m.Bytes(), r.Bytes(), q);
  }

  /** A question section is its name, its type and its class. */
  lemma SameQuestion(s: seq<byte>, u: seq<byte>, t: seq<byte>, q: nat)
    requires HEADER <= q && |s| >= q + 4 && |u| >= q + 6 && |t| >= q + 6
    requires (forall i | HEADER <= i < q :: u[i] == s[i]) && u[q + 2..q + 4] == s[q + 2..q + 4]
    requires t[..q] == u[..q] && t[q + 2..q + 6] == u[q + 2..q + 6] && t[q..q + 2] == s[q..q + 2]
    ensures t[HEADER..q + 4] == s[HEADER..q + 4]
  {
    assert forall i | HEADER <= i < q :: t[i] == t[..q][i] == u[..q][i] == s[i];
    assert forall i | q + 2 <= i < q + 4 :: t[i] == t[q + 2..q + 6][i - (q + 2)] == u[q + 2..q + 6][i - (q + 2)] == u[i];
    assert forall i | q + 2 <= i < q + 4 :: u[i] == u[q + 2..q + 4][i - (q + 2)] == s[i];
    assert t[HEADER..q] == s[HEADER..q] && t[q + 2..q + 4] == s[q + 2..q + 4];
    assert t[HEADER..q + 4] == t[HEADER..q] + t[q..q + 2] + t[q + 2..q + 4];
    assert s[HEADER..q + 4] == s[HEADER..q] + s[q..q + 2] + s[q + 2..q + 4];
  }

  /** A TXT question was sent on for an address or a TXT question only. */
  lemma SentType(s: seq<byte>, q: nat)
    requires q + 2 <= |s| && SentQuery(s, q)[q..q + 2] == Be16(TXT)
    ensures TypeAt(s, q) == A || TypeAt(s, q) == AAAA || TypeAt(s, q) == TXT
    ensures Be16(TypeAt(s, q)) == s[q..q + 2]
  {
    assert SentQuery(s, q)[q] == SentQuery(s, q)[q..q + 2][0] && SentQuery(s, q)[q + 1] == SentQuery(s, q)[q..q + 2][1];
  }

  /**
   Where everything ends up: header, names, class and time to live stay where they were, the address
   stands behind its matching length, and the authority record follows it unchanged.
   */
  lemma RecordKept(m: Message, nid32addr: Nid32, nidaddr: Nid, qType: u16, behind: seq<byte>)
    requires m.Valid() && (qType == A || qType == AAAA)
    ensures var q, l, data := m.Question(), |m.rdata|, if qType == A then nid32addr else nidaddr;
            var s, t := m.Bytes(), Rewritten(m, nid32addr, nidaddr, qType, behind).Bytes();
            var a := 12 + |m.nsData|;
            && |s| >= q + 16 + l + a && |t| >= q + 16 + |data| + a
            && t[..q] == s[..q] && t[q + 2..q + 6] == s[q + 2..q + 6] && t[q + 8..q + 14] == s[q + 8..q + 14]
            && TypeAt(t, q) == TypeAt(t, q + 6) == qType
            && FromBe16(t[q + 14..q + 16]) == |data| && t[q + 16..q + 16 + |data|] == data
            && t[q + 16 + |data|..q + 16 + |data| + a] == s[q + 16 + l..q + 16 + l + a]
  {
    var r := Rewritten(m, nid32addr, nidaddr, qType, behind);
    Offsets(m);
    Offsets(r);
    AuthorityAt(m);
    AuthorityAt(r);
  }

  lemma AuthorityAt(m: Message)
    requires m.Valid()
    ensures var p := m.Question() + 16 + |m.rdata|;
            |m.Bytes()| >= p + 12 + |m.nsData| && m.Bytes()[p..p + 12 + |m.nsData|] == m.Authority()
  {
    var p, s, n := m.Question() + 16 + |m.rdata|, m.Bytes(), |m.nsData|;
    Offsets(m);
    assert s[p..p + 12 + n] == s[p..p + 12] + s[p + 12..p + 12 + n];
  }

  // ----- what the rewriting does behind the buffer -----

  /**
   The longest encoded name, without its final zero, for which the cleared name space ends inside the
   buffer: 211 bytes with an A answer, 199 with an AAAA answer.
   */
  function LongestName(data: seq<byte>): int {
    BUFFER_LENGTH - NAME_SPACE - HEADER - 29 - |data|
  }

  /**
   Whatever lies behind the buffer is left alone up to a name of that length and no further: beyond it the
   clearing, which does not look at the record's own length, runs on. `s` is the memory before, of which
   only the first byte behind the buffer need be other than zero for the difference to show.
   */
  lemma BehindBuffer(m: Message, nid32addr: Nid32, nidaddr: Nid, qType: u16)
    requires m.Valid()
    requires var s := m.Bytes(); WritesTo(m, nid32addr, nidaddr, qType) <= |s| && BUFFER_LENGTH < |s| && s[BUFFER_LENGTH] != 0
    requires WritesTo(m, nid32addr, nidaddr, qType) - NAME_SPACE + |m.nsData| <= BUFFER_LENGTH
    ensures var s, end := m.Bytes(), WritesTo(m, nid32addr, nidaddr, qType);
            var t := Rewritten(m, nid32addr, nidaddr, qType, s[end..]).Bytes();
            && |t| == |s|
            && (forall i | BUFFER_LENGTH <= i < |s| :: t[i] == if i < end then 0 else s[i])
            && (t[BUFFER_LENGTH..] == s[BUFFER_LENGTH..] <==> |m.name| <= LongestName(NewData(m, nid32addr, nidaddr, qType)))
  {
    var s, end := m.Bytes(), WritesTo(m, nid32addr, nidaddr, qType);
    var r := Rewritten(m, nid32addr, nidaddr, qType, s[end..]);
    RestOf(r);
    hide Message.Bytes, Message.Front, Message.Authority, Rewritten;
    assert r.rest == Zeros(NAME_SPACE - |m.nsData|) + s[end..] by {
      RestRewritten(m, nid32addr, nidaddr, qType, s[end..]);
    }
    assert end <= BUFFER_LENGTH <==> |m.name| <= LongestName(NewData(m, nid32addr, nidaddr, qType));
    if end > BUFFER_LENGTH {
      assert r.Bytes()[BUFFER_LENGTH..][0] == 0 != s[BUFFER_LENGTH..][0];
    }
  }

  lemma RestRewritten(m: Message, nid32addr: Nid32, nidaddr: Nid, qType: u16, behind: seq<byte>)
    requires m.Valid()
    ensures var r := Rewritten(m, nid32addr, nidaddr, qType, behind); r.rest == Zeros(NAME_SPACE - |m.nsData|) + behind && r.nsData == m.nsData
  {
  }

  lemma RestOf(m: Message)
    requires m.Valid()
    ensures var p := m.Question() + 28 + |m.rdata| + |m.nsData|;
            |m.Bytes()| == p + |m.rest| && forall i | p <= i < |m.Bytes()| :: m.Bytes()[i] == m.rest[i - p]
  {
  }

  /** A domain name of four labels of 49 letters each, as section 4.1.2 of RFC 1035 encodes it, without its final zero. */
  function LongName(): (s: seq<byte>)
    ensures |s| == 200 && 0 !in s
  {
    var letters := seq(49, _ => 97);
    [49] + letters + [49] + letters + [49] + letters + [49] + letters
  }

  /** An IPv6 address written out in full: eight groups of four digits. */
  function AddressText(): (s: seq<byte>)
    ensures |s| == 39
  {
    var group := [50, 48, 48, 49];
    group + [58] + group + [58] + group + [58] + group + [58] + group + [58] + group + [58] + group + [58] + group
  }

  /** The answer the proxy looks for: one string holding two identifiers with a separator between them. */
  function TxtAnswer(): (s: seq<byte>)
    ensures |s| == 80
  {
    [79] + AddressText() + [32] + AddressText()
  }

  /**
   A response of 323 bytes to an AAAA question for a legal name of 200 bytes, with one string of two
   identifiers as its answer and a name server as its authority: the rewritten record ends at 259, the
   clearing at 513.
   */
  lemma Overrun(nid32addr: Nid32, nidaddr: Nid) returns (m: Message)
    ensures m.Valid() && m.name == LongName() && m.qtype == m.atype == TXT && m.Rcode() == 0 && m.rdata == TxtAnswer()
    ensures |m.Bytes()| - |m.rest| == 323
    ensures m.Question() + 28 + |nidaddr| + |m.nsData| == 259 && WritesTo(m, nid32addr, nidaddr, AAAA) == 513 <= |m.Bytes()|
    ensures |m.name| > LongestName(nidaddr) == 199 && LongestName(nid32addr) == 211
    ensures var s := m.Bytes();
            Rewritten(m, nid32addr, nidaddr, AAAA, s[WritesTo(m, nid32addr, nidaddr, AAAA)..]).Bytes()[BUFFER_LENGTH..] != s[BUFFER_LENGTH..]
  {
    hide LongName, TxtAnswer;
    m := Message([18, 52, 0x81, 0x80, 0, 1, 0, 1, 0, 1, 0, 0], LongName(), TXT, [0, 1],
                 [192, 12], TXT, [0, 1, 0, 0, 0, 60], TxtAnswer(),
                 [192, 12, 0, 2, 0, 1, 0, 0, 0, 60], [192, 12], seq(300, _ => 1));
    RestOf(m);
    BehindBuffer(m, nid32addr, nidaddr, AAAA);
  }

  // ----- what the proxy sends -----

  /** `sent` holds the authority record of `m` in full, from `at` on. */
  predicate HoldsAuthority(sent: seq<byte>, m: Message, at: nat)
    requires m.Valid()
  {
    |sent| >= at + |m.Authority()| && sent[at..at + |m.Authority()|] == m.Authority()
  }

  /**
   The proxy sends as many bytes as it received. The moved authority record is among them in full if and
   only if the data installed is no longer than the data it replaces; a string of two identifiers is long enough.
   */
  lemma SentInFull(m: Message, nid32addr: Nid32, nidaddr: Nid, qType: u16, behind: seq<byte>)
    requires m.Valid()
    requires |m.Bytes()| - |m.rest| <= |Rewritten(m, nid32addr, nidaddr, qType, behind).Bytes()|
    ensures var data := NewData(m, nid32addr, nidaddr, qType);
            var sent := Rewritten(m, nid32addr, nidaddr, qType, behind).Bytes()[..|m.Bytes()| - |m.rest|];
            && (HoldsAuthority(sent, m, m.Question() + 16 + |data|) <==> |data| <= |m.rdata|)
            && (|m.rdata| >= |TxtAnswer()| ==> |data| <= |m.rdata|)
  {
    var r := Rewritten(m, nid32addr, nidaddr, qType, behind);
    RestOf(m);
    AuthorityAt(r);
    var at := m.Question() + 16 + |NewData(m, nid32addr, nidaddr, qType)|;
    var n, rc := |m.Authority()|, |m.Bytes()| - |m.rest|;
    assert r.Authority() == m.Authority();
    if at + n <= rc {
      assert r.Bytes()[..rc][at..at + n] == r.Bytes()[at..at + n];
    }
  }
}
