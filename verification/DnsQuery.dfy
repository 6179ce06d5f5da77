/** Building a DNS query: the name is turned into a QNAME field in place, then the message is put together. */
module DnsQuery {
  import opened Basics
  import opened DnsNames

  const QUERY_DOMAIN_LEN := 256
  const DNS_BUF_SIZE := 1024
  const HEADER_SIZE := 12

  /** _get_label_len: the length byte of a label, if the length is allowed. */
  method SetLabelLength(buf: array<Byte>, pos: nat, len: int) returns (ok: bool)
    requires 1 <= len <= 63 ==> pos < buf.Length
    modifies buf
    ensures ok <==> 1 <= len <= 63
    ensures buf[..] == if ok then old(buf[..])[pos := len] else old(buf[..])
  {
    if len > 63 || len <= 0 {
      return false;
    }
    buf[pos] := len;
    return true;
  }

  /** What has been written after i bytes: the labels done, then the current one behind its place for a length. */
  ghost predicate Written(s: seq<Byte>, domain: seq<Byte>, i: nat, j: nat, done: seq<Label>)
  {
    && j <= i <= |domain| && i < |s|
    && Split(domain[..i]) == done + [domain[j..i]]
    && ValidLabels(done) && s[..j] == Encode(done)
    && s[j + 1..i + 1] == domain[j..i]
  }

  lemma WrittenChar(s: seq<Byte>, s': seq<Byte>, domain: seq<Byte>, i: nat, j: nat, done: seq<Label>)
    requires Written(s, domain, i, j, done) && i < |domain| && domain[i] != DOT && i + 1 < |s|
    requires s' == s[i + 1 := domain[i]]
    ensures Written(s', domain, i + 1, j, done)
  {
    assert domain[..i + 1] == domain[..i] + [domain[i]];
    SplitSnoc(domain[..i], domain[i]);
    ExtendedLast(done, domain[j..i], domain[i]);
    assert domain[j..i + 1] == domain[j..i] + [domain[i]];
    OneMore(s, domain[i], i, j);
  }

  lemma OneMore(s: seq<Byte>, c: Byte, i: nat, j: nat)
    requires j <= i && i + 1 < |s|
    ensures s[i + 1 := c][..j] == s[..j] && s[i + 1 := c][j + 1..i + 2] == s[j + 1..i + 1] + [c]
  {
  }

  lemma WrittenDot(s: seq<Byte>, s': seq<Byte>, domain: seq<Byte>, i: nat, j: nat, done: seq<Label>)
    requires Written(s, domain, i, j, done) && i < |domain| && domain[i] == DOT && i + 1 < |s|
    requires 1 <= i - j <= 63 && s' == s[j := i - j]
    ensures Written(s', domain, i + 1, i + 1, done + [domain[j..i]])
  {
    var l := domain[j..i];
    assert domain[..i + 1] == domain[..i] + [domain[i]];
    SplitSnoc(domain[..i], domain[i]);
    assert domain[i + 1..i + 1] == [];
    assert Split(domain[..i + 1]) == done + [l] + [[]];
    assert ValidLabels(done + [l]);
    EncodeSnoc(done, l);
    LengthSet(s, i, j);
  }

  lemma LengthSet(s: seq<Byte>, i: nat, j: nat)
    requires j < i && i + 1 < |s| && i - j < 256
    ensures var s' := s[j := i - j];
            s'[..i + 1] == s[..j] + [i - j] + s[j + 1..i + 1] && s'[i + 2..i + 2] == []
  {
  }

  /** A label of forbidden length before a dot, or at the end, spoils the name. */
  lemma BadLabel(domain: seq<Byte>, i: nat, done: seq<Label>, l: Label)
    requires i <= |domain| && Split(domain[..i]) == done + [l] && !ValidLabel(l)
    requires i < |domain| ==> domain[i] == DOT
    ensures !Name(domain) && !ValidLabels(Split(domain))
    ensures |done| < |Split(domain)| && Split(domain)[..|done|] == done && Split(domain)[|done|] == l
  {
    assert (done + [l])[|done|] == l && (done + [l])[..|done|] == done;
    if i < |domain| {
      assert domain == domain[..i] + [DOT] + domain[i + 1..];
      SplitDot(domain[..i], domain[i + 1..]);
      assert Split(domain)[|done|] == l;
    } else {
      assert domain[..i] == domain;
    }
  }

  lemma WholeName(s: seq<Byte>, t: seq<Byte>, domain: seq<Byte>, j: nat, done: seq<Label>)
    requires Written(s, domain, |domain|, j, done) && ValidLabel(domain[j..]) && t == s[j := |domain| - j]
    ensures ValidLabels(Split(domain)) && |Split(domain)| == |done| + 1
    ensures t[..|domain| + 1] == Encode(Split(domain)) && t[|domain| + 1..] == s[|domain| + 1..]
  {
    var l := domain[j..];
    assert domain[..|domain|] == domain && domain[j..|domain|] == l;
    EncodeSnoc(done, l);
    assert t[..|domain| + 1] == s[..j] + [|l|] + s[j + 1..|domain| + 1];
  }

  /** What the buffer becomes from the i-th byte of the name on, the current label having begun at j. */
  function FillFrom(s: seq<Byte>, d: seq<Byte>, i: nat, j: nat): (r: seq<Byte>)
    requires |d| < |s| && j <= i <= |d|
    ensures |r| == |s|
    decreases |d| - i
  {
    if i == |d| then if 1 <= i - j <= 63 then s[j := i - j] else s
    else if d[i] != DOT then FillFrom(s[i + 1 := d[i]], d, i + 1, j)
    else if 1 <= i - j <= 63 then FillFrom(s[j := i - j], d, i + 1, i + 1)
    else s
  }

  /** What a buffer with the bytes `s` holds after the name has been written over it, as far as that went. */
  function Filled(s: seq<Byte>, d: seq<Byte>): (r: seq<Byte>)
    requires |d| < |s|
    ensures |r| == |s|
  {
    FillFrom(s[0 := DOT], d, 0, 0)
  }

  /** The first label of forbidden length. */
  function FirstBad(ls: seq<Label>): (k: nat)
    requires !ValidLabels(ls)
    ensures k < |ls| && !ValidLabel(ls[k]) && ValidLabels(ls[..k])
  {
    if !ValidLabel(ls[0]) then 0
    else
      assert forall i :: 0 < i < |ls| ==> ls[i] == ls[1..][i - 1];
      var k := FirstBad(ls[1..]);
      assert forall i :: 0 < i <= k ==> ls[i] == ls[1..][..k][i - 1];
      k + 1
  }

  lemma FirstBadIs(ls: seq<Label>, k: nat)
    requires k < |ls| && !ValidLabel(ls[k]) && ValidLabels(ls[..k])
    ensures !ValidLabels(ls) && FirstBad(ls) == k
  {
    var f := FirstBad(ls);
    assert forall i :: 0 <= i < f ==> ls[..f][i] == ls[i];
    assert forall i :: 0 <= i < k ==> ls[..k][i] == ls[i];
  }

  /** All labels behind their lengths; or those before the first bad one, whose length byte is left as it was. */
  ghost function Image(s: seq<Byte>, ls: seq<Label>): seq<Byte> {
    if ValidLabels(ls) then Encode(ls) + From(s, |Encode(ls)|)
    else
      var k := FirstBad(ls);
      var e := Encode(ls[..k]);
      e + [if |e| < |s| then s[|e|] else 0] + ls[k] + From(s, |e| + 1 + |ls[k]|)
  }

  function From(s: seq<Byte>, n: nat): seq<Byte> {
    if n <= |s| then s[n..] else []
  }

  /** Written as far as i, and otherwise as it was before. */
  ghost predicate Over(s0: seq<Byte>, s: seq<Byte>, domain: seq<Byte>, i: nat, j: nat, done: seq<Label>) {
    Written(s, domain, i, j, done) && |s| == |s0| && s[j] == s0[j] && s[i + 1..] == s0[i + 1..]
  }

  lemma ImageBad(s0: seq<Byte>, s: seq<Byte>, ls: seq<Label>, k: nat, i: nat, j: nat)
    requires k < |ls| && !ValidLabel(ls[k]) && ValidLabels(ls[..k])
    requires j <= i < |s| && |s| == |s0| && s[j] == s0[j] && s[i + 1..] == s0[i + 1..]
    requires s[..j] == Encode(ls[..k]) && s[j + 1..i + 1] == ls[k]
    ensures s == Image(s0, ls)
  {
    FirstBadIs(ls, k);
    Pieces(s0, s, Encode(ls[..k]), ls[k], i, j);
  }

  lemma ImageGood(s0: seq<Byte>, t: seq<Byte>, ls: seq<Label>, n: nat)
    requires ValidLabels(ls) && n <= |t| == |s0| && t[..n] == Encode(ls) && t[n..] == s0[n..]
    ensures t == Image(s0, ls)
  {
    assert |t[..n]| == n && t == t[..n] + t[n..];
  }

  lemma Pieces(s0: seq<Byte>, s: seq<Byte>, e: seq<Byte>, l: Label, i: nat, j: nat)
    requires j <= i < |s| && |s| == |s0| && s[j] == s0[j] && s[i + 1..] == s0[i + 1..]
    requires s[..j] == e && s[j + 1..i + 1] == l
    ensures |e| == j && |l| == i - j && s == e + [s0[|e|]] + l + s0[|e| + 1 + |l|..]
  {
    assert s == s[..j] + [s[j]] + s[j + 1..i + 1] + s[i + 1..];
  }

  lemma OverChar(s0: seq<Byte>, s: seq<Byte>, d: seq<Byte>, i: nat, j: nat, done: seq<Label>)
    requires Over(s0, s, d, i, j, done) && |d| < |s| && i < |d| && d[i] != DOT
    ensures Over(s0, s[i + 1 := d[i]], d, i + 1, j, done)
  {
    WrittenChar(s, s[i + 1 := d[i]], d, i, j, done);
    assert s[i + 1 := d[i]][i + 2..] == s[i + 1..][1..] == s0[i + 2..];
  }

  lemma OverDot(s0: seq<Byte>, s: seq<Byte>, d: seq<Byte>, i: nat, j: nat, done: seq<Label>)
    requires Over(s0, s, d, i, j, done) && |d| < |s| && i < |d| && d[i] == DOT && 1 <= i - j <= 63
    ensures Over(s0, s[j := i - j], d, i + 1, i + 1, done + [d[j..i]])
  {
    var t := s[j := i - j];
    WrittenDot(s, t, d, i, j, done);
    assert t[i + 1] == s[i + 1..][0] == s0[i + 1..][0];
    assert t[i + 2..] == s[i + 1..][1..] == s0[i + 2..];
  }

  lemma OverBad(s0: seq<Byte>, s: seq<Byte>, d: seq<Byte>, i: nat, j: nat, done: seq<Label>)
    requires Over(s0, s, d, i, j, done) && |d| < |s| && !(1 <= i - j <= 63)
    requires i < |d| ==> d[i] == DOT
    ensures s == Image(s0, Split(d))
  {
    BadLabel(d, i, done, d[j..i]);
    ImageBad(s0, s, Split(d), |done|, i, j);
  }

  lemma OverEnd(s0: seq<Byte>, s: seq<Byte>, t: seq<Byte>, d: seq<Byte>, j: nat, done: seq<Label>)
    requires Over(s0, s, d, |d|, j, done) && 1 <= |d| - j <= 63 && t == s[j := |d| - j]
    ensures t == Image(s0, Split(d))
  {
    assert ValidLabel(d[j..]);
    WholeName(s, t, d, j, done);
    ImageGood(s0, t, Split(d), |d| + 1);
  }

  lemma {:induction false} FillsOver(s0: seq<Byte>, s: seq<Byte>, d: seq<Byte>, i: nat, j: nat, done: seq<Label>)
    requires Over(s0, s, d, i, j, done) && |d| < |s|
    ensures FillFrom(s, d, i, j) == Image(s0, Split(d))
    decreases |d| - i
  {
    if i < |d| && d[i] != DOT {
      OverChar(s0, s, d, i, j, done);
      FillsOver(s0, s[i + 1 := d[i]], d, i + 1, j, done);
    } else if !(1 <= i - j <= 63) {
      OverBad(s0, s, d, i, j, done);
    } else if i < |d| {
      OverDot(s0, s, d, i, j, done);
      FillsOver(s0, s[j := i - j], d, i + 1, i + 1, done + [d[j..i]]);
    } else {
      OverEnd(s0, s, s[j := i - j], d, j, done);
    }
  }

  /** What is left in the buffer, for any text and any bytes that were in it. */
  lemma FilledIs(s: seq<Byte>, d: seq<Byte>)
    requires |d| < |s|
    ensures Filled(s, d) == Image(s[0 := DOT], Split(d))
  {
    FillsOver(s[0 := DOT], s[0 := DOT], d, 0, 0, []);
  }

  /** _construct_domain_field. */
  method ConstructField(buf: array<Byte>, domain: seq<Byte>) returns (r: nat)
    requires buf.Length == QUERY_DOMAIN_LEN && Text(domain) && |domain| <= 255
    modifies buf
    ensures r == if Name(domain) then |domain| + 1 else 0
    ensures buf[..] == Filled(old(buf[..]), domain)
    ensures Name(domain) ==> buf[..r] == Field(domain)
  {
    buf[0] := DOT;
    var i, j, dot := 0, 0, 0;
    ghost var done: seq<Label> := [];
    assert buf[..] == old(buf[..])[0 := DOT];
    while i < |domain| && i < QUERY_DOMAIN_LEN
      invariant i <= |domain| && Written(buf[..], domain, i, j, done) && dot == |done|
      invariant FillFrom(buf[..], domain, i, j) == Filled(old(buf[..]), domain)
      decreases |domain| - i
    {
      ghost var s := buf[..];
      if domain[i] == DOT {
        var ok := SetLabelLength(buf, j, i - j);
        if !ok {
          BadLabel(domain, i, done, domain[j..i]);
          return 0;
        }
        WrittenDot(s, buf[..], domain, i, j, done);
        done := done + [domain[j..i]];
        j := 1 + i;
        dot := dot + 1;
      } else {
        buf[1 + i] := domain[i];
        assert buf[..] == s[i + 1 := domain[i]];
        WrittenChar(s, buf[..], domain, i, j, done);
      }
      i := i + 1;
    }
    ghost var s := buf[..];
    assert domain[j..i] == domain[j..];
    var ok := SetLabelLength(buf, j, i - j);
    if !ok {
      BadLabel(domain, i, done, domain[j..]);
      return 0;
    }
    WholeName(s, buf[..], domain, j, done);
    if dot < 1 || i > 255 {
      return 0;
    }
    return i + 1;
  }

  // ----- the message

  function Patched(b: seq<Byte>, off: nat, s: seq<Byte>): seq<Byte>
    requires off + |s| <= |b|
  {
    b[..off] + s + b[off + |s|..]
  }

  /** Copies `s` into the buffer at `off`. */
  method Put(buf: array<Byte>, off: nat, s: seq<Byte>)
    requires off + |s| <= buf.Length
    modifies buf
    ensures buf[..] == Patched(old(buf[..]), off, s)
  {
    for i := 0 to |s|
      invariant buf[..off] == old(buf[..off]) && buf[off..off + i] == s[..i] && buf[off + i..] == old(buf[off + i..])
    {
      buf[off + i] := s[i];
      assert s[..i + 1] == s[..i] + [s[i]];
      assert buf[off..off + i + 1] == buf[off..off + i] + [s[i]];
      assert old(buf[off + i + 1..]) == old(buf[off + i..])[1..];
    }
    assert buf[..] == buf[..off] + buf[off..off + |s|] + buf[off + |s|..];
    assert old(buf[..])[..off] == old(buf[..off]) && old(buf[..])[off + |s|..] == old(buf[off + |s|..]);
  }

  function Zeros(n: nat): seq<Byte> {
    seq(n, _ => 0)
  }

  /** A header with the id in the machine's own (little-endian) order, recursion desired, and one question. */
  function Header(qid: nat): seq<Byte>
    requires qid < 0x10000
  {
    [qid % 256, qid / 256, 1, 0, 0, 1, 0, 0, 0, 0, 0, 0]
  }

  /** Type A, class IN. */
  const QUESTION: seq<Byte> := [0, 1, 0, 1]

  /** The whole buffer of a query. */
  function Message(qid: nat, d: seq<Byte>): seq<Byte>
    requires qid < 0x10000 && Name(d) && |d| <= 254
  {
    FieldStandsFor(d, []);
    Header(qid) + Field(d) + [0] + QUESTION + Zeros(DNS_BUF_SIZE - |d| - 18)
  }

  /** The id, and by its length bytes the name, can be read back from the message; the question follows. */
  lemma MessageReadsBack(qid: nat, d: seq<Byte>)
    requires qid < 0x10000 && Name(d) && |d| <= 254
    ensures var m := Message(qid, d);
            && |m| == DNS_BUF_SIZE && (m[0] as int) + 256 * (m[1] as int) == qid
            && var r := Read(m[HEADER_SIZE..]);
               r.Some? && r.value.0 != [] && Join(r.value.0) == d && HEADER_SIZE + r.value.1 == |d| + 14
               && m[|d| + 14..|d| + 18] == QUESTION
  {
    var rest := QUESTION + Zeros(DNS_BUF_SIZE - |d| - 18);
    FieldStandsFor(d, rest);
    var m := Message(qid, d);
    InThree(Header(qid), Field(d) + [0], rest, m);
    InThree(Header(qid) + (Field(d) + [0]), QUESTION, Zeros(DNS_BUF_SIZE - |d| - 18), m);
  }

  lemma InThree(a: seq<Byte>, b: seq<Byte>, c: seq<Byte>, m: seq<Byte>)
    requires m == a + b + c
    ensures m[|a|..] == b + c && m[|a|..|a| + |b|] == b
  {
  }

  lemma PatchZeros(p: seq<Byte>, n: nat, k: nat, s: seq<Byte>)
    requires k + |s| <= n
    ensures Patched(p + Zeros(n), |p| + k, s) == p + Zeros(k) + s + Zeros(n - k - |s|)
  {
    var b := p + Zeros(n);
    assert b[..|p| + k] == p + Zeros(k);
    assert b[|p| + k + |s|..] == Zeros(n - k - |s|);
  }

  /** The buffer after each part has been put in its place over zeros. */
  lemma Assembled(b: seq<Byte>, h: seq<Byte>, f: seq<Byte>)
    requires |b| == DNS_BUF_SIZE && |h| == HEADER_SIZE && |f| <= 255
    ensures var s0 := Patched(b, 0, Zeros(DNS_BUF_SIZE));
            var s2 := Patched(Patched(s0, 0, h), HEADER_SIZE, f);
            Patched(s2, HEADER_SIZE + |f| + 1, QUESTION) == h + f + [0] + QUESTION + Zeros(DNS_BUF_SIZE - |f| - 17)
  {
    assert Patched(b, 0, Zeros(DNS_BUF_SIZE)) == [] + Zeros(DNS_BUF_SIZE);
    PatchZeros([], DNS_BUF_SIZE, 0, h);
    assert [] + Zeros(0) + h == h;
    PatchZeros(h, DNS_BUF_SIZE - HEADER_SIZE, 0, f);
    assert h + Zeros(0) + f == h + f;
    PatchZeros(h + f, DNS_BUF_SIZE - HEADER_SIZE - |f|, 1, QUESTION);
    assert Zeros(1) == [0];
  }

  method Fill(buf: array<Byte>, qid: nat, field: seq<Byte>)
    requires buf.Length == DNS_BUF_SIZE && qid < 0x10000 && |field| <= 255
    modifies buf
    ensures buf[..] == Header(qid) + field + [0] + QUESTION + Zeros(DNS_BUF_SIZE - |field| - 17)
  {
    Assembled(buf[..], Header(qid), field);
    Put(buf, 0, Zeros(DNS_BUF_SIZE));
    Put(buf, 0, Header(qid));
    Put(buf, HEADER_SIZE, field);
    Put(buf, HEADER_SIZE + |field| + 1, QUESTION);
  }

  /** mdns_query_build; `None` stands for a null pointer. */
  method Build(buf: array?<Byte>, qid: nat, domain: Option<seq<Byte>>) returns (r: int)
    requires buf != null ==> buf.Length == DNS_BUF_SIZE
    requires qid < 0x10000 && (domain.Some? ==> Text(domain.value) && |domain.value| <= 255)
    modifies if buf == null then {} else {buf}
    ensures buf == null || qid == 0 || domain.None? ==> r == -1
    ensures buf != null && qid != 0 && domain.Some? ==>
              r == if Name(domain.value) && |domain.value| <= 254 then |domain.value| + 18 else -2
    ensures r < 0 && buf != null ==> buf[..] == old(buf[..])
    ensures r > 0 ==> buf[..] == Message(qid, domain.value)
  {
    if buf == null || qid == 0 || domain.None? {
      return -1;
    }
    var field := new Byte[QUERY_DOMAIN_LEN](_ => 0);
    var n := ConstructField(field, domain.value);
    var dlen := n % 256;
    if dlen == 0 {
      return -2;
    }
    FieldStandsFor(domain.value, []);
    r := HEADER_SIZE + dlen + 1 + |QUESTION|;
    Fill(buf, qid, field[..dlen]);
  }
}
