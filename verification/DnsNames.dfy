/**
 Domain names and the QNAME field: a name is labels joined with dots, the field
 is each label after its length (section 3.1 of RFC 1035), ended by a zero.
 */
module DnsNames {
  import opened Basics

  const DOT: Byte := 46

  type Label = seq<Byte>

  /** Bytes other than zero: what a C string can hold. */
  predicate Text(d: seq<Byte>) {
    forall i :: 0 <= i < |d| ==> d[i] != 0
  }

  // ----- names and labels

  /** The labels between the dots. */
  function Split(d: seq<Byte>): (ls: seq<Label>)
    ensures ls != []
  {
    if d == [] then [[]]
    else if d[0] == DOT then [[]] + Split(d[1..])
    else
      var ls := Split(d[1..]);
      [[d[0]] + ls[0]] + ls[1..]
  }

  function Join(ls: seq<Label>): seq<Byte>
    requires ls != []
  {
    if |ls| == 1 then ls[0] else ls[0] + [DOT] + Join(ls[1..])
  }

  lemma {:induction false} JoinSplit(d: seq<Byte>)
    ensures Join(Split(d)) == d
  {
    if d != [] {
      var ls := Split(d[1..]);
      JoinSplit(d[1..]);
      assert d == [d[0]] + d[1..];
      if d[0] == DOT {
        assert Split(d)[1..] == ls;
      } else {
        assert Split(d)[1..] == ls[1..] && Split(d)[0] == [d[0]] + ls[0];
        assert |ls| > 1 ==> [d[0]] + (ls[0] + [DOT] + Join(ls[1..])) == [d[0]] + ls[0] + [DOT] + Join(ls[1..]);
      }
    }
  }

  /** The last label with one more character. */
  function Extended(ls: seq<Label>, c: Byte): seq<Label>
    requires ls != []
  {
    if |ls| == 1 then [ls[0] + [c]] else [ls[0]] + Extended(ls[1..], c)
  }

  /** One more character: it extends the last label, or a dot starts a new one. */
  lemma {:induction false} SplitSnoc(d: seq<Byte>, c: Byte)
    ensures Split(d + [c]) == if c == DOT then Split(d) + [[]] else Extended(Split(d), c)
  {
    if d == [] {
      assert d + [c] == [c] && [c][1..] == [] && Split([]) == [[]];
      assert [c] + [] == [] + [c];
    } else {
      var ls := Split(d[1..]);
      assert (d + [c])[1..] == d[1..] + [c];
      SplitSnoc(d[1..], c);
      if d[0] == DOT {
        assert ([[]] + ls)[1..] == ls;
      } else {
        var x := [d[0]] + ls[0];
        assert ([x] + ls[1..])[1..] == ls[1..];
        assert [d[0]] + (ls[0] + [c]) == x + [c];
      }
    }
  }

  lemma {:induction false} ExtendedLast(done: seq<Label>, last: Label, c: Byte)
    ensures Extended(done + [last], c) == done + [last + [c]]
  {
    if done != [] {
      assert (done + [last])[1..] == done[1..] + [last];
      ExtendedLast(done[1..], last, c);
    }
  }

  /** A dot separates the labels before it from those after it. */
  lemma {:induction false} SplitDot(a: seq<Byte>, b: seq<Byte>)
    ensures Split(a + [DOT] + b) == Split(a) + Split(b)
  {
    if a == [] {
      assert a + [DOT] + b == [DOT] + b && ([DOT] + b)[1..] == b;
    } else {
      assert (a + [DOT] + b)[1..] == a[1..] + [DOT] + b;
      SplitDot(a[1..], b);
    }
  }

  // ----- the field

  predicate ValidLabel(l: Label) {
    1 <= |l| <= 63
  }

  predicate ValidLabels(ls: seq<Label>) {
    forall i :: 0 <= i < |ls| ==> ValidLabel(ls[i])
  }

  function Encode(ls: seq<Label>): seq<Byte>
    requires ValidLabels(ls)
  {
    if ls == [] then [] else [|ls[0]|] + ls[0] + Encode(ls[1..])
  }

  lemma {:induction false} EncodeSnoc(ls: seq<Label>, l: Label)
    requires ValidLabels(ls + [l])
    ensures ValidLabels(ls) && ValidLabel(l) && Encode(ls + [l]) == Encode(ls) + [|l|] + l
  {
    assert forall i :: 0 <= i < |ls| ==> ls[i] == (ls + [l])[i];
    assert l == (ls + [l])[|ls|];
    if ls == [] {
      assert ([l])[1..] == [];
    } else {
      assert (ls + [l])[1..] == ls[1..] + [l];
      EncodeSnoc(ls[1..], l);
    }
  }

  /** The field is one byte longer than the name. */
  lemma {:induction false} EncodeLength(ls: seq<Label>)
    requires ls != [] && ValidLabels(ls)
    ensures |Encode(ls)| == |Join(ls)| + 1
  {
    if |ls| > 1 { EncodeLength(ls[1..]); }
  }

  /** Labels read by their length bytes, up to the zero; and how many bytes that takes. */
  function Read(s: seq<Byte>): Option<(seq<Label>, nat)>
    decreases |s|
  {
    if s == [] || s[0] > 63 || |s| < 1 + s[0] then None
    else if s[0] == 0 then Some(([], 1))
    else
      match Read(s[1 + s[0]..])
      case None => None
      case Some((ls, n)) => Some(([s[1..1 + s[0]]] + ls, 1 + s[0] + n))
  }

  /** Reading a field back gives the labels it was made from, whatever follows. */
  lemma {:induction false} ReadEncode(ls: seq<Label>, rest: seq<Byte>)
    requires ValidLabels(ls)
    ensures Read(Encode(ls) + [0] + rest) == Some((ls, |Encode(ls)| + 1))
  {
    var s := Encode(ls) + [0] + rest;
    if ls != [] {
      var n := |ls[0]|;
      ReadEncode(ls[1..], rest);
      assert s[0] == n && s[1..1 + n] == ls[0];
      assert s[1 + n..] == Encode(ls[1..]) + [0] + rest;
      assert ls == [ls[0]] + ls[1..];
    }
  }

  /** The names a query can be made for: two labels or more, each of 1 to 63 bytes. */
  predicate Name(d: seq<Byte>) {
    ValidLabels(Split(d)) && |Split(d)| >= 2
  }

  function Field(d: seq<Byte>): seq<Byte>
    requires Name(d)
  {
    Encode(Split(d))
  }

  /** The field stands for the name, and is one byte longer. */
  lemma FieldStandsFor(d: seq<Byte>, rest: seq<Byte>)
    requires Name(d)
    ensures |Field(d)| == |d| + 1
    ensures var r := Read(Field(d) + [0] + rest);
            r.Some? && r.value.0 != [] && Join(r.value.0) == d && r.value.1 == |d| + 2
  {
    JoinSplit(d);
    EncodeLength(Split(d));
    ReadEncode(Split(d), rest);
  }
}
