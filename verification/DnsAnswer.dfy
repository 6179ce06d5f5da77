/**
 Reading a DNS response: the header test, the question test, and the walk over
 the answer records to the first address.
 */
module DnsAnswer {
  import opened Basics
  import opened DnsNames
  import DnsQuery

  const RR_SIZE := 10     // type, class, ttl and length of a record

  // ----- reading memory

  /** A byte of the message; past its end the memory counts as zero. */
  function At(m: seq<Byte>, i: nat): Byte {
    if i < |m| then m[i] else 0
  }

  /** Two bytes in network order. */
  function Word(m: seq<Byte>, i: nat): nat {
    256 * (At(m, i) as int) + (At(m, i + 1) as int)
  }

  function StrLen(m: seq<Byte>, pos: nat): nat
    decreases |m| - pos
  {
    if At(m, pos) == 0 then 0 else 1 + StrLen(m, pos + 1)
  }

  // ----- the walk

  datatype Outcome = Found(ip: seq<Byte>) | Failed(code: int)

  /** What one record of the walk leads to: an end, or the place of the next record. */
  datatype Turn = Stop(outcome: Outcome) | Next(pos: nat)

  function Look(m: seq<Byte>, len: int, pos: nat): Turn {
    if len <= pos + 2 + DnsQuery.HEADER_SIZE then Stop(Failed(-31))
    else
      var name := StrLen(m, pos);
      var off := pos + name + RR_SIZE;
      if name < 2 || len <= off then Stop(Failed(-32))
      else
        var kind, cls, rdlen := Word(m, pos + name), Word(m, pos + name + 2), Word(m, pos + name + 8);
        if len < off + rdlen then Stop(Failed(-33))
        else if cls == 1 && (kind == 1 || kind == 12)
        then Stop(Found([At(m, off), At(m, off + 1), At(m, off + 2), At(m, off + 3)]))
        else Next(off + rdlen)
  }

  function Walk(m: seq<Byte>, len: int, pos: nat, left: nat): Outcome
    decreases left
  {
    if left == 0 then Failed(-34)
    else
      match Look(m, len, pos)
      case Stop(o) => o
      case Next(p) => Walk(m, len, p, left - 1)
  }

  /** _response_fetch_res. */
  method Fetch(m: seq<Byte>, len: int, querySize: nat, out: array<Byte>) returns (r: int)
    requires out.Length == 4
    modifies out
    ensures match Walk(m, len, querySize, Word(m, 6))
            case Found(ip) => r == 1 && out[..] == ip
            case Failed(code) => r == code && r < 0 && out[..] == old(out[..])
  {
    var pos: nat := querySize;
    var count := Word(m, 6);
    for i := 0 to count
      invariant Walk(m, len, pos, count - i) == Walk(m, len, querySize, count)
      invariant out[..] == old(out[..])
    {
      if len <= pos + 2 + DnsQuery.HEADER_SIZE {
        return -31;
      }
      var name := StrLen(m, pos);
      if name < 2 || len <= pos + name + RR_SIZE {
        return -32;
      }
      var off := pos + name + RR_SIZE;
      var rdlen := Word(m, pos + name + 8);
      if len < off + rdlen {
        return -33;
      }
      if Word(m, pos + name + 2) == 1 && (Word(m, pos + name) == 1 || Word(m, pos + name) == 12) {
        out[0], out[1], out[2], out[3] := At(m, off), At(m, off + 1), At(m, off + 2), At(m, off + 3);
        return 1;
      }
      pos := off + rdlen;
    }
    return -34;
  }

  // ----- answers as they are sent

  /** A record whose owner name is a two-byte compression pointer (section 4.1.4 of RFC 1035). */
  datatype Record = Record(p0: Byte, p1: Byte, kind: Byte, cls: nat, ttl: seq<Byte>, rdata: seq<Byte>)
  {
    ghost predicate Proper() {
      && p0 != 0 && p1 != 0 && cls < 0x10000 && |ttl| == 4 && |rdata| < 0x10000
      && (kind == 1 && cls == 1 ==> |rdata| == 4)
    }

    /** An address or a pointer, of class IN. */
    predicate Hit() {
      cls == 1 && (kind == 1 || kind == 12)
    }

    function Wire(): seq<Byte>
      requires cls < 0x10000 && |rdata| < 0x10000
    {
      [p0, p1, 0, kind, cls / 256, cls % 256] + ttl + [|rdata| / 256, |rdata| % 256] + rdata
    }
  }

  ghost predicate AllProper(rs: seq<Record>) {
    forall i :: 0 <= i < |rs| ==> rs[i].Proper()
  }

  function Wires(rs: seq<Record>): seq<Byte>
    requires forall i :: 0 <= i < |rs| ==> rs[i].cls < 0x10000 && |rs[i].rdata| < 0x10000
  {
    if rs == [] then [] else rs[0].Wire() + Wires(rs[1..])
  }

  /** The bytes `w` stand in the message from `pos` on. */
  ghost predicate Holds(m: seq<Byte>, pos: nat, w: seq<Byte>) {
    pos + |w| <= |m| && forall i :: 0 <= i < |w| ==> At(m, pos + i) == w[i]
  }

  /** The records stand in the message one after the other from `pos` on. */
  ghost predicate Carries(m: seq<Byte>, pos: nat, rs: seq<Record>)
    requires AllProper(rs)
    decreases |rs|
  {
    rs == [] || (Holds(m, pos, rs[0].Wire()) && Carries(m, pos + |rs[0].Wire()|, rs[1..]))
  }

  lemma HoldsParts(m: seq<Byte>, pos: nat, a: seq<Byte>, b: seq<Byte>)
    requires Holds(m, pos, a + b)
    ensures Holds(m, pos, a) && Holds(m, pos + |a|, b)
  {
    forall i | 0 <= i < |a| ensures At(m, pos + i) == a[i] {
      assert (a + b)[i] == a[i];
    }
    forall i | 0 <= i < |b| ensures At(m, pos + |a| + i) == b[i] {
      assert (a + b)[|a| + i] == b[i] && At(m, pos + (|a| + i)) == b[i];
    }
  }

  /** A message with the encoded records in it carries them. */
  lemma {:induction false} CarriesWires(m: seq<Byte>, pos: nat, rs: seq<Record>)
    requires AllProper(rs) && Holds(m, pos, Wires(rs))
    ensures Carries(m, pos, rs)
    decreases |rs|
  {
    if rs != [] {
      HoldsParts(m, pos, rs[0].Wire(), Wires(rs[1..]));
      CarriesWires(m, pos + |rs[0].Wire()|, rs[1..]);
    }
  }

  lemma RecordAt(m: seq<Byte>, pos: nat, r: Record)
    requires r.Proper() && Holds(m, pos, r.Wire())
    ensures StrLen(m, pos) == 2 && Word(m, pos + 2) == r.kind as int && Word(m, pos + 4) == r.cls
    ensures Word(m, pos + 10) == |r.rdata| && |r.Wire()| == 12 + |r.rdata|
    ensures forall i :: 0 <= i < |r.rdata| ==> At(m, pos + 12 + i) == r.rdata[i]
  {
    var w := r.Wire();
    assert w[0] == r.p0 && w[1] == r.p1 && w[2] == 0 && w[3] == r.kind && w[4] == r.cls / 256 && w[5] == r.cls % 256;
    assert w[10] == |r.rdata| / 256 && w[11] == |r.rdata| % 256;
    assert At(m, pos + 0) == w[0];
    assert StrLen(m, pos + 2) == 0 && StrLen(m, pos + 1) == 1;
    forall i | 0 <= i < |r.rdata| ensures At(m, pos + 12 + i) == r.rdata[i] {
      assert w[12 + i] == r.rdata[i] && At(m, pos + (12 + i)) == w[12 + i];
    }
  }

  /** The walk at a record that stands whole in the message, with something behind it if it is short. */
  lemma LookAt(m: seq<Byte>, len: int, pos: nat, r: Record)
    requires r.Proper() && Holds(m, pos, r.Wire()) && len >= pos + 12 + |r.rdata|
    ensures len > pos + 14 && !r.Hit() ==> Look(m, len, pos) == Next(pos + |r.Wire()|)
    ensures r.Hit() && |r.rdata| >= 4 ==> Look(m, len, pos) == Stop(Found(r.rdata[..4]))
    ensures len <= pos + 14 ==> Look(m, len, pos) == Stop(Failed(-31))
  {
    RecordAt(m, pos, r);
    if r.Hit() && |r.rdata| >= 4 {
      var off := pos + 12;
      assert At(m, off + 0) == r.rdata[0] && At(m, off + 1) == r.rdata[1];
      assert At(m, off + 2) == r.rdata[2] && At(m, off + 3) == r.rdata[3];
      assert r.rdata[..4] == [r.rdata[0], r.rdata[1], r.rdata[2], r.rdata[3]];
    }
  }

  lemma WireLength(r: Record)
    requires r.Proper()
    ensures |r.Wire()| == 12 + |r.rdata|
  {
  }

  lemma {:induction false} WiresLength(rs: seq<Record>, k: nat)
    requires AllProper(rs) && k < |rs|
    ensures |Wires(rs)| == |rs[0].Wire()| + |Wires(rs[1..])|
    ensures |Wires(rs)| >= 12 + |rs[k].rdata|
  {
    WireLength(rs[0]);
    if k > 0 { WiresLength(rs[1..], k - 1); }
  }

  /**
   The walk skips, exactly, every record before the first that is an address or a pointer of class IN,
   and takes the first four bytes of that one.
   */
  lemma {:induction false} FirstHit(m: seq<Byte>, len: int, pos: nat, rs: seq<Record>, k: nat)
    requires AllProper(rs) && Carries(m, pos, rs) && len >= pos + |Wires(rs)|
    requires k < |rs| && rs[k].Hit() && |rs[k].rdata| >= 4
    requires forall i :: 0 <= i < k ==> !rs[i].Hit()
    ensures Walk(m, len, pos, |rs|) == Found(rs[k].rdata[..4])
    decreases |rs|
  {
    WireLength(rs[0]);
    WiresLength(rs, k);
    LookAt(m, len, pos, rs[0]);
    if k > 0 {
      WiresLength(rs[1..], k - 1);
      FirstHit(m, len, pos + |rs[0].Wire()|, rs[1..], k - 1);
    }
  }

  /** So an address is found if no pointer of class IN comes before it. */
  lemma FirstAddress(m: seq<Byte>, len: int, pos: nat, rs: seq<Record>, k: nat)
    requires AllProper(rs) && Carries(m, pos, rs) && len >= pos + |Wires(rs)|
    requires k < |rs| && rs[k].cls == 1 && rs[k].kind == 1
    requires forall i :: 0 <= i < k ==> !rs[i].Hit()
    ensures Walk(m, len, pos, |rs|) == Found(rs[k].rdata)
  {
    FirstHit(m, len, pos, rs, k);
    assert rs[k].rdata[..4] == rs[k].rdata;
  }

  /** Without an address or a pointer of class IN, the walk ends in an error. */
  lemma {:induction false} NoHit(m: seq<Byte>, len: int, pos: nat, rs: seq<Record>)
    requires AllProper(rs) && Carries(m, pos, rs) && len >= pos + |Wires(rs)|
    requires forall i :: 0 <= i < |rs| ==> !rs[i].Hit()
    ensures var o := Walk(m, len, pos, |rs|); o.Failed? && (o.code == -31 || o.code == -34)
    ensures len > pos + |Wires(rs)| + 2 ==> Walk(m, len, pos, |rs|) == Failed(-34)
    decreases |rs|
  {
    if rs != [] {
      WireLength(rs[0]);
      WiresLength(rs, 0);
      LookAt(m, len, pos, rs[0]);
      NoHit(m, len, pos + |rs[0].Wire()|, rs[1..]);
    }
  }

  // ----- the header

  /** The flags of byte 2, from the lowest bit: rd, tc, aa, opcode (four bits), qr. */
  function Rd(m: seq<Byte>): int { At(m, 2) % 2 }
  function Opcode(m: seq<Byte>): int { At(m, 2) / 8 % 16 }
  function Qr(m: seq<Byte>): int { At(m, 2) / 128 }
  /** And of byte 3: rcode (four bits), z (three bits), ra. */
  function Rcode(m: seq<Byte>): int { At(m, 3) % 16 }
  function Z(m: seq<Byte>): int { At(m, 3) / 16 % 8 }

  /** A response to one standard query, with the rest of the header as it should be. */
  predicate IsResponse(m: seq<Byte>) {
    Qr(m) == 1 && Opcode(m) == 0 && Rd(m) == 1 && Z(m) == 0 && Word(m, 4) == 1
  }

  /** _response_check_header: accepted exactly when it is a response without error and with answers. */
  function CheckHeader(m: seq<Byte>): (r: int)
    ensures r == 1 <==> IsResponse(m) && Rcode(m) == 0 && Word(m, 6) > 0
    ensures r == 1 || -15 <= r <= -10
    ensures r < -10 <==> IsResponse(m) && 1 <= Rcode(m) <= 5
  {
    var code := Rcode(m);
    if Qr(m) != 1 || Opcode(m) != 0 || Rd(m) != 1 || Z(m) != 0 || Word(m, 4) != 1 ||
       (Word(m, 6) == 0 && code == 0) || (6 <= code <= 15) then -10
    else if 1 <= code <= 5 then -(10 + code)
    else 1
  }

  // ----- the question

  /** strncmp finds no difference among the first n bytes of m from `pos` and of f. */
  predicate SameText(m: seq<Byte>, pos: nat, f: seq<Byte>, i: nat, n: nat)
    decreases n - i
  {
    if i >= n then true
    else if At(m, pos + i) != At(f, i) then false
    else if At(f, i) == 0 then true
    else SameText(m, pos, f, i + 1, n)
  }

  /** The first n bytes agree. */
  ghost predicate Agree(m: seq<Byte>, pos: nat, f: seq<Byte>, i: nat, n: nat) {
    forall k :: i <= k < n ==> At(m, pos + k) == At(f, k)
  }

  /** They agree up to the n-th byte, or up to a zero in both. */
  ghost predicate Alike(m: seq<Byte>, pos: nat, f: seq<Byte>, i: nat, n: nat) {
    exists e :: i <= e <= n && Agree(m, pos, f, i, e) && (e < n ==> At(f, e) == 0 == At(m, pos + e))
  }

  lemma {:induction false} SameTextIff(m: seq<Byte>, pos: nat, f: seq<Byte>, i: nat, n: nat)
    requires i <= n
    ensures SameText(m, pos, f, i, n) <==> Alike(m, pos, f, i, n)
    decreases n - i
  {
    if i == n {
      assert Agree(m, pos, f, i, i);
    } else {
      SameTextIff(m, pos, f, i + 1, n);
      if SameText(m, pos, f, i, n) {
        if At(f, i) == 0 {
          assert Agree(m, pos, f, i, i);
        } else {
          var e :| i + 1 <= e <= n && Agree(m, pos, f, i + 1, e) && (e < n ==> At(f, e) == 0 == At(m, pos + e));
          assert Agree(m, pos, f, i, e);
        }
      }
      if e :| i < e <= n && Agree(m, pos, f, i, e) && (e < n ==> At(f, e) == 0 == At(m, pos + e)) {
        assert Agree(m, pos, f, i + 1, e);
      }
    }
  }

  /**
   _response_check_question, for any name. `junk` is what the local buffer holds
   before the name is written over it, as far as its labels are allowed.
   */
  function CheckQuestion(m: seq<Byte>, d: seq<Byte>, junk: seq<Byte>): int
    requires |d| < |junk|
  {
    if SameText(m, DnsQuery.HEADER_SIZE, DnsQuery.Filled(junk, d), 0, |d|) then 1 else -23
  }

  /** For any name: the bytes compared are those of the labels up to the first bad one, and of the junk. */
  lemma QuestionInGeneral(m: seq<Byte>, d: seq<Byte>, junk: seq<Byte>)
    requires |d| < |junk|
    ensures var f := DnsQuery.Image(junk[0 := DOT], Split(d));
            CheckQuestion(m, d, junk) == 1 <==> Alike(m, DnsQuery.HEADER_SIZE, f, 0, |d|)
  {
    DnsQuery.FilledIs(junk, d);
    SameTextIff(m, DnsQuery.HEADER_SIZE, DnsQuery.Filled(junk, d), 0, |d|);
  }

  lemma {:induction false} EncodeText(ls: seq<Label>)
    requires ValidLabels(ls) && forall i :: 0 <= i < |ls| ==> Text(ls[i])
    ensures Text(Encode(ls))
  {
    if ls != [] { EncodeText(ls[1..]); }
  }

  lemma {:induction false} SplitText(d: seq<Byte>)
    requires Text(d)
    ensures forall i :: 0 <= i < |Split(d)| ==> Text(Split(d)[i])
  {
    if d != [] { SplitText(d[1..]); }
  }

  /** If every label may be written, the question passes exactly when it agrees with all bytes but the last. */
  lemma QuestionIff(m: seq<Byte>, d: seq<Byte>, junk: seq<Byte>)
    requires |d| < |junk| && Text(d) && ValidLabels(Split(d))
    ensures CheckQuestion(m, d, junk) == 1 <==>
            var f := Encode(Split(d));
            |f| == |d| + 1 && forall k :: 0 <= k < |d| ==> At(m, DnsQuery.HEADER_SIZE + k) == f[k]
  {
    var f, n := DnsQuery.Image(junk[0 := DOT], Split(d)), Encode(Split(d));
    JoinSplit(d);
    EncodeLength(Split(d));
    SplitText(d);
    EncodeText(Split(d));
    assert forall k :: 0 <= k < |d| ==> At(f, k) == n[k];
    QuestionInGeneral(m, d, junk);
    if forall k :: 0 <= k < |d| ==> At(m, DnsQuery.HEADER_SIZE + k) == n[k] {
      assert Agree(m, DnsQuery.HEADER_SIZE, f, 0, |d|);
    }
  }

  /**
   mdns_response_parse; `None` stands for a null pointer, `junk` for the unfilled buffer of the question test.
   The walk is made in any case, and an address it finds is written even if another test then fails.
   */
  method Parse(m: Option<seq<Byte>>, len: int, querySize: int, domain: Option<seq<Byte>>, out: array?<Byte>,
               junk: seq<Byte>)
    returns (r: int)
    requires out != null ==> out.Length == 4
    requires |junk| == DnsQuery.QUERY_DOMAIN_LEN
    requires domain.Some? ==> Text(domain.value) && |domain.value| <= 255
    modifies if out == null then {} else {out}
    ensures r == 0 <==> m.None? || len <= 0 || querySize <= 0 || domain.None? || out == null
    ensures r != 0 && CheckHeader(m.value) < 0 ==> r == CheckHeader(m.value)
    ensures r != 0 && CheckHeader(m.value) > 0 && CheckQuestion(m.value, domain.value, junk) < 0 ==> r == -23
    ensures r != 0 && CheckHeader(m.value) > 0 && CheckQuestion(m.value, domain.value, junk) > 0 ==>
              match Walk(m.value, len, querySize, Word(m.value, 6))
              case Found(_) => r == 1
              case Failed(code) => r == code
    ensures r != 0 ==> out[..] == match Walk(m.value, len, querySize, Word(m.value, 6))
                                  case Found(ip) => ip
                                  case Failed(_) => old(out[..])
    ensures r == 0 && out != null ==> out[..] == old(out[..])
  {
    if m.None? || len <= 0 || querySize <= 0 || domain.None? || out == null {
      return 0;
    }
    var header := CheckHeader(m.value);
    var question := CheckQuestion(m.value, domain.value, junk);
    var res := Fetch(m.value, len, querySize, out);
    if header > 0 && question > 0 && res > 0 {
      return 1;
    }
    if header <= 0 {
      return header;
    }
    if question <= 0 {
      return question;
    }
    return res;
  }
}
