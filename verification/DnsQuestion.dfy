/** How much of a name the question test of a response really compares, and what a good response leads to. */
module DnsQuestion {
  import opened Basics
  import opened DnsNames
  import opened DnsQuery
  import DnsAnswer

  function Init(s: seq<Byte>): seq<Byte>
    requires s != []
  {
    s[..|s| - 1]
  }

  /** The labels `ms` begin like `ls`, but for what follows and for the last byte of the last of `ls`. */
  ghost predicate BeginLike(ms: seq<Label>, ls: seq<Label>)
    requires ls != [] && ValidLabels(ls) && ValidLabels(ms)
  {
    var k := |ls| - 1;
    && |ls| <= |ms| && ms[..k] == ls[..k]
    && |ms[k]| == |ls[k]| && Init(ms[k]) == Init(ls[k])
  }

  lemma BeginLikeNext(ms: seq<Label>, ls: seq<Label>)
    requires ValidLabels(ls) && ValidLabels(ms) && |ls| > 1 && ms != []
    ensures BeginLike(ms, ls) <==> ms[0] == ls[0] && BeginLike(ms[1..], ls[1..])
  {
    var k := |ls| - 1;
    assert ls[1..][k - 1] == ls[k] && ls[1..][..k - 1] == ls[1..k];
    if |ls| <= |ms| {
      assert ms[1..][k - 1] == ms[k] && ms[1..][..k - 1] == ms[1..k];
      assert ms[..k] == [ms[0]] + ms[1..k] && ls[..k] == [ls[0]] + ls[1..k];
      assert ms[..k][0] == ms[0] && ms[..k][1..] == ms[1..k];
    }
  }

  /** A field agrees with the start of a name in a message, its own last byte apart, exactly when the labels do. */
  lemma {:induction false} AgreesIff(ls: seq<Label>, ms: seq<Label>, rest: seq<Byte>)
    requires ValidLabels(ls) && ValidLabels(ms) && ls != []
    requires |Encode(ls)| <= |Encode(ms) + [0] + rest|
    ensures Encode(ls) != [] && (Init(Encode(ls)) <= Encode(ms) + [0] + rest <==> BeginLike(ms, ls))
  {
    var x, s, l := Encode(ls), Encode(ms) + [0] + rest, |ls[0]|;
    var t := Encode(ls[1..]);
    assert x == [l] + ls[0] + t && Init(x)[0] == l;
    if ms == [] {
      assert s[0] == 0;
    } else {
      var s' := Encode(ms[1..]) + [0] + rest;
      assert s == [|ms[0]|] + ms[0] + s';
      if |ms[0]| != l {
        NotFirst(ms, ls);
      } else if |ls| == 1 {
        assert Init(x) == [l] + Init(ls[0]) && s[..l] == [l] + Init(ms[0]);
        OneLabel(ms, ls);
        Prefix([l], Init(ls[0]), Init(ms[0]));
      } else {
        AgreesIff(ls[1..], ms[1..], rest);
        BeginLikeNext(ms, ls);
        assert Init(x) == [l] + ls[0] + Init(t);
        SplitPrefix([l], ls[0], Init(t), ms[0], s');
      }
    }
  }

  lemma NotFirst(ms: seq<Label>, ls: seq<Label>)
    requires ValidLabels(ls) && ValidLabels(ms) && ls != [] && ms != [] && |ms[0]| != |ls[0]|
    ensures !BeginLike(ms, ls)
  {
    if |ls| > 1 { BeginLikeNext(ms, ls); }
  }

  lemma OneLabel(ms: seq<Label>, ls: seq<Label>)
    requires ValidLabels(ls) && ValidLabels(ms) && |ls| == 1 && ms != [] && |ms[0]| == |ls[0]|
    ensures BeginLike(ms, ls) <==> Init(ms[0]) == Init(ls[0])
  {
  }

  lemma Prefix(p: seq<Byte>, a: seq<Byte>, b: seq<Byte>)
    ensures p + a == p + b <==> a == b
  {
    if p + a == p + b { assert (p + a)[|p|..] == a && (p + b)[|p|..] == b; }
  }

  lemma SplitPrefix(p: seq<Byte>, a: seq<Byte>, x: seq<Byte>, b: seq<Byte>, y: seq<Byte>)
    requires |a| == |b|
    ensures p + a + x <= p + b + y <==> a == b && x <= y
  {
    var u, v, k := p + a + x, p + b + y, |p| + |a|;
    assert u[|p|..k] == a && v[|p|..k] == b && u[k..] == x && v[k..] == y;
    if u <= v {
      assert v[..|u|] == u;
      assert v[..|u|][|p|..k] == v[|p|..k] && v[..|u|][k..] == y[..|x|];
    }
  }

  /**
   A response about `e` passes the question test for `d` exactly when the labels of `e` begin with those of
   `d`, the last byte of the last one apart; anything may follow.
   */
  lemma QuestionTells(qid: nat, d: seq<Byte>, e: seq<Byte>, junk: seq<Byte>)
    requires qid < 0x10000 && Name(d) && Name(e) && Text(d) && |d| <= 255 && |e| <= 254
    requires |junk| == QUERY_DOMAIN_LEN
    ensures DnsAnswer.CheckQuestion(Message(qid, e), d, junk) == 1 <==> BeginLike(Split(e), Split(d))
  {
    var rest := QUESTION + Zeros(DNS_BUF_SIZE - |e| - 18);
    FieldStandsFor(d, []);
    FieldStandsFor(e, []);
    var f, m := Field(d), Message(qid, e);
    InThree(Header(qid), Field(e) + [0], rest, m);
    DnsAnswer.QuestionIff(m, d, junk);
    AgreesIff(Split(d), Split(e), rest);
    AtStart(m, f, |d|);
  }

  lemma AtStart(m: seq<Byte>, f: seq<Byte>, n: nat)
    requires |f| == n + 1 && |m| >= HEADER_SIZE + n + 1
    ensures Init(f) <= m[HEADER_SIZE..] <==> forall k :: 0 <= k < n ==> DnsAnswer.At(m, HEADER_SIZE + k) == f[k]
  {
    var s := m[HEADER_SIZE..];
    if Init(f) <= s {
      forall k | 0 <= k < n ensures DnsAnswer.At(m, HEADER_SIZE + k) == f[k] {
        assert s[..n][k] == Init(f)[k] && s[k] == m[HEADER_SIZE + k];
      }
    }
    if forall k :: 0 <= k < n ==> DnsAnswer.At(m, HEADER_SIZE + k) == f[k] {
      forall k | 0 <= k < n ensures s[k] == f[k] {
        assert s[k] == m[HEADER_SIZE + k] == DnsAnswer.At(m, HEADER_SIZE + k);
      }
      assert s[..n] == Init(f);
    }
  }

  lemma OneLetter(a: Byte)
    requires a != DOT
    ensures Split([a]) == [[a]]
  {
    assert [a][1..] == [] && [a] + [] == [a] && Split([]) == [[]];
  }

  lemma TwoLetters(a: Byte, b: Byte)
    requires a != DOT && b != DOT
    ensures Split([a, DOT, b]) == [[a], [b]]
  {
    OneLetter(a);
    OneLetter(b);
    SplitDot([a], [b]);
    assert [a] + [DOT] + [b] == [a, DOT, b];
  }

  /** A response about "a.c" passes for "a.b". */
  lemma WrongNamePasses(qid: nat, junk: seq<Byte>)
    requires qid < 0x10000 && |junk| == QUERY_DOMAIN_LEN
    ensures var d, e := [97, DOT, 98], [97, DOT, 99];
            Name(d) && Name(e) && DnsAnswer.CheckQuestion(Message(qid, e), d, junk) == 1
  {
    var d, e := [97, DOT, 98], [97, DOT, 99];
    TwoLetters(97, 98);
    TwoLetters(97, 99);
    QuestionTells(qid, d, e, junk);
  }

  /** And so does one about "a.x.c", a name of another length altogether. */
  lemma LongerNamePasses(qid: nat, junk: seq<Byte>)
    requires qid < 0x10000 && |junk| == QUERY_DOMAIN_LEN
    ensures var d, e := [97, DOT, 98], [97, DOT, 120, DOT, 99];
            Name(d) && Name(e) && DnsAnswer.CheckQuestion(Message(qid, e), d, junk) == 1
  {
    var d, e := [97, DOT, 98], [97, DOT, 120, DOT, 99];
    TwoLetters(97, 98);
    OneLetter(97);
    TwoLetters(120, 99);
    SplitDot([97], [120, DOT, 99]);
    assert [97] + [DOT] + [120, DOT, 99] == e;
    QuestionTells(qid, d, e, junk);
  }

  // ----- from a query to its answer

  /** A response to the query for `d`: the flags say so, without an error, and the question is repeated. */
  ghost predicate Answers(m: seq<Byte>, qid: nat, d: seq<Byte>)
    requires qid < 0x10000 && Name(d) && |d| <= 254
  {
    FieldStandsFor(d, []);
    && DnsAnswer.IsResponse(m) && DnsAnswer.Rcode(m) == 0
    && (forall i :: HEADER_SIZE <= i < |d| + 18 ==> DnsAnswer.At(m, i) == Message(qid, d)[i])
  }

  lemma AnswerPasses(m: seq<Byte>, qid: nat, d: seq<Byte>, junk: seq<Byte>)
    requires qid < 0x10000 && Name(d) && Text(d) && |d| <= 254 && Answers(m, qid, d) && DnsAnswer.Word(m, 6) > 0
    requires |junk| == QUERY_DOMAIN_LEN
    ensures DnsAnswer.CheckHeader(m) == 1 && DnsAnswer.CheckQuestion(m, d, junk) == 1
  {
    FieldStandsFor(d, []);
    var q := Message(qid, d);
    forall k | 0 <= k < |d| ensures DnsAnswer.At(m, HEADER_SIZE + k) == Field(d)[k] {
      assert DnsAnswer.At(m, HEADER_SIZE + k) == q[HEADER_SIZE + k];
    }
    DnsAnswer.QuestionIff(m, d, junk);
  }

  /**
   A response to the query for `d` whose answer section holds the records `rs`, the first of class IN and
   type A or PTR among them being an address, gets that address to the caller.
   */
  lemma AnswerReachesCaller(
    m: seq<Byte>, len: int, qid: nat, d: seq<Byte>, junk: seq<Byte>, rs: seq<DnsAnswer.Record>, k: nat)
    requires qid < 0x10000 && Name(d) && Text(d) && |d| <= 254 && Answers(m, qid, d)
    requires |junk| == QUERY_DOMAIN_LEN
    requires DnsAnswer.AllProper(rs) && DnsAnswer.Word(m, 6) == |rs|
    requires DnsAnswer.Holds(m, |d| + 18, DnsAnswer.Wires(rs)) && len >= |d| + 18 + |DnsAnswer.Wires(rs)|
    requires k < |rs| && rs[k].cls == 1 && rs[k].kind == 1
    requires forall i :: 0 <= i < k ==> !rs[i].Hit()
    ensures DnsAnswer.CheckHeader(m) == 1 && DnsAnswer.CheckQuestion(m, d, junk) == 1
    ensures DnsAnswer.Walk(m, len, |d| + 18, DnsAnswer.Word(m, 6)) == DnsAnswer.Found(rs[k].rdata)
  {
    AnswerPasses(m, qid, d, junk);
    DnsAnswer.CarriesWires(m, |d| + 18, rs);
    DnsAnswer.FirstAddress(m, len, |d| + 18, rs, k);
  }

  /** A PTR record of class IN, and an address behind it. */
  function PointerFirst(ttl: seq<Byte>): seq<DnsAnswer.Record> {
    [DnsAnswer.Record(192, 12, 12, 1, ttl, [3, 119, 119, 119, 0]),
     DnsAnswer.Record(192, 12, 1, 1, ttl, [10, 0, 0, 1])]
  }

  /** The first four bytes of such a pointer are taken for an address. */
  lemma PointerTaken(m: seq<Byte>, len: int, pos: nat, ttl: seq<Byte>)
    requires |ttl| == 4
    requires DnsAnswer.Holds(m, pos, DnsAnswer.Wires(PointerFirst(ttl)))
    requires len >= pos + |DnsAnswer.Wires(PointerFirst(ttl))|
    ensures DnsAnswer.Walk(m, len, pos, 2) == DnsAnswer.Found([3, 119, 119, 119])
  {
    var rs := PointerFirst(ttl);
    DnsAnswer.CarriesWires(m, pos, rs);
    DnsAnswer.FirstHit(m, len, pos, rs, 0);
    assert rs[0].rdata[..4] == [3, 119, 119, 119];
  }

  // ----- a response as a server would send it

  /** The header, the question and the records, in two halves. */
  function ReplyHead(qid: nat, count: nat): seq<Byte>
    requires qid < 0x10000 && count < 0x10000
  {
    [qid % 256, qid / 256, 129, 128, 0, 1, count / 256, count % 256, 0, 0, 0, 0]
  }

  function Reply(qid: nat, d: seq<Byte>, rs: seq<DnsAnswer.Record>): seq<Byte>
    requires qid < 0x10000 && Name(d) && |rs| < 0x10000
    requires forall i :: 0 <= i < |rs| ==> rs[i].cls < 0x10000 && |rs[i].rdata| < 0x10000
  {
    ReplyHead(qid, |rs|) + (Field(d) + [0] + QUESTION) + DnsAnswer.Wires(rs)
  }

  lemma ReplyAnswers(qid: nat, d: seq<Byte>, rs: seq<DnsAnswer.Record>)
    requires qid < 0x10000 && Name(d) && |d| <= 254 && |rs| < 0x10000 && DnsAnswer.AllProper(rs)
    ensures var m := Reply(qid, d, rs);
            && Answers(m, qid, d) && DnsAnswer.Word(m, 6) == |rs| && |m| == |d| + 18 + |DnsAnswer.Wires(rs)|
            && DnsAnswer.Holds(m, |d| + 18, DnsAnswer.Wires(rs))
  {
    FieldStandsFor(d, []);
    var h, q, w := ReplyHead(qid, |rs|), Field(d) + [0] + QUESTION, DnsAnswer.Wires(rs);
    var m, x := Reply(qid, d, rs), Message(qid, d);
    ThreeParts(h, q, w, m);
    ThreeParts(Header(qid), q, Zeros(DNS_BUF_SIZE - |d| - 18), x);
    assert m[2] == h[2] && m[3] == h[3] && m[4] == h[4] && m[5] == h[5] && m[6] == h[6] && m[7] == h[7];
    forall i | HEADER_SIZE <= i < |d| + 18 ensures DnsAnswer.At(m, i) == x[i] {
      assert m[i] == q[i - HEADER_SIZE] && x[i] == q[i - HEADER_SIZE];
    }
  }

  lemma ThreeParts(a: seq<Byte>, b: seq<Byte>, c: seq<Byte>, m: seq<Byte>)
    requires m == a + b + c
    ensures |m| == |a| + |b| + |c| && forall i :: 0 <= i < |a| ==> m[i] == a[i]
    ensures forall i :: |a| <= i < |a| + |b| ==> m[i] == b[i - |a|]
    ensures forall i :: 0 <= i < |c| ==> m[|a| + |b| + i] == c[i]
  {
  }

  /** A query answered: whatever name was asked for, the server's first address gets to the caller. */
  method AskAndGet(qid: nat, d: seq<Byte>, rs: seq<DnsAnswer.Record>, ghost k: nat, out: array<Byte>, junk: seq<Byte>)
    returns (r: int)
    requires 0 < qid < 0x10000 && Name(d) && Text(d) && |d| <= 254 && out.Length == 4 && |junk| == QUERY_DOMAIN_LEN
    requires |rs| < 0x10000 && DnsAnswer.AllProper(rs) && k < |rs| && rs[k].cls == 1 && rs[k].kind == 1
    requires forall i :: 0 <= i < k ==> !rs[i].Hit()
    modifies out
    ensures r == 1 && out[..] == rs[k].rdata
  {
    var buf := new Byte[DNS_BUF_SIZE](_ => 0);
    var size := Build(buf, qid, Some(d));
    var m := Reply(qid, d, rs);
    ReplyAnswers(qid, d, rs);
    AnswerReachesCaller(m, |m|, qid, d, junk, rs, k);
    r := DnsAnswer.Parse(Some(m), |m|, size, Some(d), out, junk);
  }

  const ONE_ADDRESS: seq<DnsAnswer.Record> := [DnsAnswer.Record(192, 12, 1, 1, [0, 0, 0, 60], [10, 0, 0, 1])]

  lemma OtherName(e: seq<Byte>, junk: seq<Byte>)
    requires |junk| == QUERY_DOMAIN_LEN && e == [99, DOT, 98]
    ensures Name(e) && DnsAnswer.AllProper(ONE_ADDRESS)
    ensures var m := Reply(1, e, ONE_ADDRESS);
            && DnsAnswer.CheckHeader(m) == 1 && DnsAnswer.CheckQuestion(m, [97, DOT, 98], junk) == -23
            && DnsAnswer.Walk(m, |m|, 21, DnsAnswer.Word(m, 6)) == DnsAnswer.Found([10, 0, 0, 1])
  {
    TwoLetters(97, 98);
    TwoLetters(99, 98);
    var m := Reply(1, e, ONE_ADDRESS);
    ReplyAnswers(1, e, ONE_ADDRESS);
    AnswerReachesCaller(m, |m|, 1, e, junk, ONE_ADDRESS, 0);
    FirstLetterTells(m, 1, [97, DOT, 98], e, junk);
  }

  /** A response about another name is turned down, and its address has been written all the same. */
  method RejectedButWritten(out: array<Byte>, junk: seq<Byte>) returns (r: int)
    requires out.Length == 4 && |junk| == QUERY_DOMAIN_LEN
    modifies out
    ensures r == -23 && out[..] == [10, 0, 0, 1]
  {
    var e := [99, DOT, 98];
    OtherName(e, junk);
    var m := Reply(1, e, ONE_ADDRESS);
    r := DnsAnswer.Parse(Some(m), |m|, 21, Some([97, DOT, 98]), out, junk);
  }

  lemma FirstLetterTells(m: seq<Byte>, qid: nat, d: seq<Byte>, e: seq<Byte>, junk: seq<Byte>)
    requires qid < 0x10000 && |junk| == QUERY_DOMAIN_LEN && d == [97, DOT, 98] && e == [99, DOT, 98]
    requires Split(d) == [[97], [98]] && Split(e) == [[99], [98]] && Answers(m, qid, e)
    ensures DnsAnswer.CheckQuestion(m, d, junk) == -23
  {
    FieldStandsFor(d, []);
    FieldStandsFor(e, []);
    DnsAnswer.QuestionIff(m, d, junk);
    assert Field(d)[1] == 97 && Field(e)[1] == 99;
    ThreeParts(Header(qid), Field(e) + [0] + QUESTION, Zeros(DNS_BUF_SIZE - |e| - 18), Message(qid, e));
    assert DnsAnswer.At(m, HEADER_SIZE + 1) == Message(qid, e)[HEADER_SIZE + 1];
  }
}
