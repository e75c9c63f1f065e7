/** Joining notification chunks by MTU length (gateway/observer.py). */
module Joiner {
  import opened Bytes
  import opened Common

  /** One notification: its bytes, and the payload size reported with it (0 when unknown). */
  datatype Chunk = Chunk(data: seq<byte>, mtu: nat)

  predicate Continued(c: Chunk) {
    c.mtu != 0 && |c.data| == c.mtu
  }

  /** The buffer captured by the handler and the values handed on so far. */
  datatype Joined = Joined(buf: seq<byte>, values: seq<seq<byte>>)

  function Receive(s: Joined, c: Chunk): Joined {
    if Continued(c) then s.(buf := s.buf + c.data)
    else Joined([], s.values + [s.buf + c.data])
  }

  class Handler {
    var buf: seq<byte>
    var values: seq<seq<byte>>

    function State(): Joined
      reads this
    {
      Joined(buf, values)
    }

    constructor ()
      ensures State() == Joined([], [])
    {
      buf, values := [], [];
    }

    method OnData(c: Chunk)
      modifies this
      ensures State() == Receive(old(State()), c)
    {
      buf := buf + c.data;
      if c.mtu != 0 && |c.data| == c.mtu {
        return;
      }
      var payload := buf;
      buf := [];
      values := values + [payload];
    }
  }

  function ReceiveAll(s: Joined, cs: seq<Chunk>): Joined
    decreases |cs|
  {
    if cs == [] then s else ReceiveAll(Receive(s, cs[0]), cs[1..])
  }

  function DataOf(cs: seq<Chunk>): seq<byte> {
    if cs == [] then [] else cs[0].data + DataOf(cs[1..])
  }

  /** No byte is lost, added or moved: the emitted values followed by the buffer are the bytes
      received, whatever the chunk sizes and reported MTUs. */
  lemma {:induction false} BytesConserved(s: Joined, cs: seq<Chunk>)
    ensures var t := ReceiveAll(s, cs); Concat(t.values) + t.buf == Concat(s.values) + s.buf + DataOf(cs)
    decreases |cs|
  {
    if cs == [] {
    } else {
      var t := Receive(s, cs[0]);
      if !Continued(cs[0]) {
        ConcatSnoc(s.values, s.buf + cs[0].data);
      }
      assert Concat(t.values) + t.buf == Concat(s.values) + s.buf + cs[0].data;
      BytesConserved(t, cs[1..]);
      assert Concat(s.values) + s.buf + cs[0].data + DataOf(cs[1..]) ==
             Concat(s.values) + s.buf + (cs[0].data + DataOf(cs[1..]));
    }
  }

  /** A payload cut into chunks of the MTU's size; an empty payload is one empty chunk. */
  function Split(payload: seq<byte>, mtu: nat): seq<Chunk>
    requires mtu > 0
    decreases |payload|
  {
    if |payload| <= mtu then [Chunk(payload, mtu)]
    else [Chunk(payload[..mtu], mtu)] + Split(payload[mtu..], mtu)
  }

  function SplitAll(payloads: seq<seq<byte>>, mtu: nat): seq<Chunk>
    requires mtu > 0
  {
    if payloads == [] then [] else Split(payloads[0], mtu) + SplitAll(payloads[1..], mtu)
  }

  /** A payload whose last chunk is full, so that it looks continued. */
  predicate EndsFull(payload: seq<byte>, mtu: nat)
    requires mtu > 0
  {
    |payload| > 0 && |payload| % mtu == 0
  }

  lemma {:induction false} ReceiveConcat(s: Joined, cs: seq<Chunk>, ds: seq<Chunk>)
    ensures ReceiveAll(s, cs + ds) == ReceiveAll(ReceiveAll(s, cs), ds)
    decreases |cs|
  {
    if cs == [] {
      assert cs + ds == ds;
    } else {
      assert (cs + ds)[1..] == cs[1..] + ds;
      ReceiveConcat(Receive(s, cs[0]), cs[1..], ds);
    }
  }

  lemma SubtractMtu(n: nat, mtu: nat)
    requires n > mtu > 0
    ensures n % mtu == 0 <==> (n - mtu) % mtu == 0
  {
    var q, r := (n - mtu) / mtu, (n - mtu) % mtu;
    assert n == (q + 1) * mtu + r by {
      assert (q + 1) * mtu == q * mtu + mtu;
    }
    DivUnique(n, mtu, q + 1, r);
    assert n % mtu == n - (n / mtu) * mtu;
  }

  lemma SmallRemainder(n: nat, mtu: nat)
    requires 0 < mtu && n <= mtu
    ensures n % mtu == 0 <==> n == 0 || n == mtu
  {
    if n < mtu {
      DivUnique(n, mtu, 0, n);
    }
  }

  lemma {:induction false} JoinOne(s: Joined, payload: seq<byte>, mtu: nat)
    requires mtu > 0
    ensures ReceiveAll(s, Split(payload, mtu)) ==
      if EndsFull(payload, mtu) then s.(buf := s.buf + payload) else Joined([], s.values + [s.buf + payload])
    decreases |payload|
  {
    var cs := Split(payload, mtu);
    if |payload| <= mtu {
      assert cs[1..] == [];
      assert ReceiveAll(s, cs) == Receive(s, cs[0]);
      SmallRemainder(|payload|, mtu);
    } else {
      assert cs[1..] == Split(payload[mtu..], mtu);
      JoinOne(Receive(s, cs[0]), payload[mtu..], mtu);
      SubtractMtu(|payload|, mtu);
      assert s.buf + payload[..mtu] + payload[mtu..] == s.buf + payload;
    }
  }

  function CountEndsFull(payloads: seq<seq<byte>>, mtu: nat): nat
    requires mtu > 0
  {
    if payloads == [] then 0
    else (if EndsFull(payloads[0], mtu) then 1 else 0) + CountEndsFull(payloads[1..], mtu)
  }

  /** Each payload yields one value, except those that end full, which yield none. */
  lemma {:induction false} ValuesCounted(s: Joined, payloads: seq<seq<byte>>, mtu: nat)
    requires mtu > 0
    ensures var t := ReceiveAll(s, SplitAll(payloads, mtu));
      && |t.values| == |s.values| + |payloads| - CountEndsFull(payloads, mtu)
      && (CountEndsFull(payloads, mtu) == 0 && s.buf == [] ==> t == Joined([], s.values + payloads))
    decreases |payloads|
  {
    if payloads == [] {
    } else {
      ReceiveConcat(s, Split(payloads[0], mtu), SplitAll(payloads[1..], mtu));
      JoinOne(s, payloads[0], mtu);
      var t := ReceiveAll(s, Split(payloads[0], mtu));
      ValuesCounted(t, payloads[1..], mtu);
      assert s.values + payloads == s.values + [payloads[0]] + payloads[1..];
      assert s.buf == [] ==> s.buf + payloads[0] == payloads[0];
    }
  }

  lemma {:induction false} NoneEndsFull(payloads: seq<seq<byte>>, mtu: nat)
    requires mtu > 0
    ensures CountEndsFull(payloads, mtu) == 0 <==>
            forall i :: 0 <= i < |payloads| ==> !EndsFull(payloads[i], mtu)
  {
    if payloads == [] {
    } else {
      NoneEndsFull(payloads[1..], mtu);
      assert forall i :: 0 < i < |payloads| ==> payloads[i] == payloads[1..][i - 1];
      assert forall i :: 0 <= i < |payloads| - 1 ==> payloads[1..][i] == payloads[i + 1];
    }
  }

  /** Splitting any payloads at the MTU and joining the chunks gives them back exactly when none
      of them ends on a full chunk. */
  lemma JoinInvertsSplitIff(payloads: seq<seq<byte>>, mtu: nat)
    requires mtu > 0
    ensures ReceiveAll(Joined([], []), SplitAll(payloads, mtu)) == Joined([], payloads)
            <==> forall i :: 0 <= i < |payloads| ==> !EndsFull(payloads[i], mtu)
  {
    ValuesCounted(Joined([], []), payloads, mtu);
    NoneEndsFull(payloads, mtu);
    assert [] + payloads == payloads;
  }

  // ---------------------------------------------------------------- where values end

  lemma {:induction false} FullChunksGather(s: Joined, cs: seq<Chunk>)
    requires forall j :: 0 <= j < |cs| ==> cs[j].mtu > 0 && |cs[j].data| == cs[j].mtu
    ensures ReceiveAll(s, cs) == s.(buf := s.buf + DataOf(cs))
    decreases |cs|
  {
    if cs == [] {
      assert s.buf + [] == s.buf;
    } else {
      FullChunksGather(s.(buf := s.buf + cs[0].data), cs[1..]);
      assert s.buf + cs[0].data + DataOf(cs[1..]) == s.buf + (cs[0].data + DataOf(cs[1..]));
    }
  }

  lemma ReceiveSnoc(s: Joined, cs: seq<Chunk>, c: Chunk)
    ensures ReceiveAll(s, cs + [c]) == Receive(ReceiveAll(s, cs), c)
  {
    ReceiveConcat(s, cs, [c]);
    assert [c][1..] == [];
  }

  lemma {:induction false} DataSnoc(cs: seq<Chunk>, c: Chunk)
    ensures DataOf(cs + [c]) == DataOf(cs) + c.data
  {
    if cs == [] {
      assert (cs + [c])[1..] == [];
    } else {
      assert (cs + [c])[1..] == cs[1..] + [c];
      DataSnoc(cs[1..], c);
    }
  }

  lemma EmptyAfterEnd(cs: seq<Chunk>, k: nat)
    requires k <= |cs|
    requires k == 0 || cs[k - 1].mtu == 0 || |cs[k - 1].data| != cs[k - 1].mtu
    ensures ReceiveAll(Joined([], []), cs[..k]).buf == []
  {
    if k > 0 {
      assert cs[..k] == cs[..k - 1] + [cs[k - 1]];
      ReceiveSnoc(Joined([], []), cs[..k - 1], cs[k - 1]);
    }
  }

  /** A value ends at every chunk that is not exactly as long as its reported MTU, or whose MTU is
      unknown, and is all the data since the last such chunk. */
  lemma ValueAtEachEnd(cs: seq<Chunk>, k: nat, i: nat)
    requires k <= i < |cs|
    requires k == 0 || cs[k - 1].mtu == 0 || |cs[k - 1].data| != cs[k - 1].mtu
    requires forall j :: k <= j < i ==> cs[j].mtu > 0 && |cs[j].data| == cs[j].mtu
    requires cs[i].mtu == 0 || |cs[i].data| != cs[i].mtu
    ensures ReceiveAll(Joined([], []), cs[..i]).values == ReceiveAll(Joined([], []), cs[..k]).values
    ensures ReceiveAll(Joined([], []), cs[..i + 1]) ==
            Joined([], ReceiveAll(Joined([], []), cs[..k]).values + [DataOf(cs[k..i + 1])])
  {
    var start := Joined([], []);
    assert cs[..i] == cs[..k] + cs[k..i] && cs[..i + 1] == cs[..i] + [cs[i]];
    assert cs[k..i + 1] == cs[k..i] + [cs[i]];
    EmptyAfterEnd(cs, k);
    ReceiveConcat(start, cs[..k], cs[k..i]);
    FullChunksGather(ReceiveAll(start, cs[..k]), cs[k..i]);
    ReceiveSnoc(start, cs[..i], cs[i]);
    DataSnoc(cs[k..i], cs[i]);
    assert [] + DataOf(cs[k..i]) == DataOf(cs[k..i]);
  }
}
