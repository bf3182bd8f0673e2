/** The two published streams as functions of the history of calls, whatever bits each call yields. */
module SiftLog {
  import opened BitPacking
  import opened Sifting

  /** Alice's answer is on its way, has reached Bob, never will, or there was none for want of frames. */
  datatype Fate = Outstanding | Delivered | Unheard | Aborted

  /** What the two parties sift from one request that Alice handled, and what became of her answer. */
  datatype Record = Record(alice: seq<bool>, bob: seq<bool>, fate: Fate)

  /** Alice publishes an empty block for a request she aborts. */
  function AliceBlock(r: Record): seq<bool> {
    if r.fate.Aborted? then [] else r.alice
  }

  /** The bits of each block Alice publishes: one for every request. */
  function AliceLog(records: seq<Record>): (log: seq<seq<bool>>)
    ensures |log| == |records|
  {
    seq(|records|, i requires 0 <= i < |records| => AliceBlock(records[i]))
  }

  /** The bits of each block Bob publishes: only an answer that reaches him makes him publish. */
  function BobLog(records: seq<Record>): (log: seq<seq<bool>>)
    ensures |log| <= |records|
  {
    if records == [] then []
    else
      var r := records[|records| - 1];
      BobLog(records[..|records| - 1]) + if r.fate.Delivered? then [r.bob] else []
  }

  /** Blocks numbered from 0, one per list of bits. */
  function Numbered(log: seq<seq<bool>>): (p: seq<Publication>)
    ensures |p| == |log|
  {
    seq(|log|, i requires 0 <= i < |log| => Publication(i, Pack(log[i])))
  }

  lemma NumberedAppend(log: seq<seq<bool>>, bits: seq<bool>)
    ensures Numbered(log + [bits]) == Numbered(log) + [Publication(|log|, Pack(bits))]
  {
  }

  lemma AliceLogAppend(records: seq<Record>, r: Record)
    ensures AliceLog(records + [r]) == AliceLog(records) + [AliceBlock(r)]
  {
  }

  lemma BobLogAppend(records: seq<Record>, r: Record)
    ensures BobLog(records + [r]) == BobLog(records) + if r.fate.Delivered? then [r.bob] else []
  {
    assert (records + [r])[..|records|] == records;
  }

  /** Nothing from place k on has reached Bob. */
  ghost predicate NoneDeliveredFrom(records: seq<Record>, k: nat) {
    forall i :: k <= i < |records| ==> !records[i].fate.Delivered?
  }

  lemma {:induction false} BobLogSettled(records: seq<Record>, k: nat, fate: Fate)
    requires k < |records| && NoneDeliveredFrom(records, k)
    ensures BobLog(records[k := records[k].(fate := fate)])
         == BobLog(records) + if fate.Delivered? then [records[k].bob] else []
    decreases |records|
  {
    hide BobLog;
    var last := |records| - 1;
    var before, settled := records[..last], records[k := records[k].(fate := fate)];
    assert records == before + [records[last]];
    BobLogAppend(before, records[last]);
    if k < last {
      BobLogSettled(before, k, fate);
      assert settled == before[k := before[k].(fate := fate)] + [records[last]];
      BobLogAppend(before[k := before[k].(fate := fate)], records[last]);
    } else {
      assert settled == before + [records[last].(fate := fate)];
      BobLogAppend(before, records[last].(fate := fate));
    }
  }

  // Settling the fate of the last answer still on its way extends Bob's log, or leaves both logs alone.
  lemma LogsSettled(records: seq<Record>, k: nat, fate: Fate)
    requires k < |records| && NoneDeliveredFrom(records, k) && !records[k].fate.Aborted? && !fate.Aborted?
    ensures var settled := records[k := records[k].(fate := fate)];
            && AliceLog(settled) == AliceLog(records)
            && BobLog(settled) == BobLog(records) + if fate.Delivered? then [records[k].bob] else []
  {
    hide BobLog;
    var settled := records[k := records[k].(fate := fate)];
    assert forall i :: 0 <= i < |records| ==> AliceBlock(settled[i]) == AliceBlock(records[i]);
    BobLogSettled(records, k, fate);
  }

  // ---------- Bytes ----------

  function LogBytes(log: seq<seq<bool>>): seq<bv8> {
    if log == [] then [] else LogBytes(log[..|log| - 1]) + Pack(log[|log| - 1]).bytes
  }

  lemma {:induction false} BytesOfNumbered(log: seq<seq<bool>>)
    ensures Bytes(Numbered(log)) == LogBytes(log)
  {
    if log != [] {
      var last := |log| - 1;
      BytesOfNumbered(log[..last]);
      assert Numbered(log)[..last] == Numbered(log[..last]);
    }
  }

  lemma LogBytesAppend(log: seq<seq<bool>>, bits: seq<bool>)
    ensures LogBytes(log + [bits]) == LogBytes(log) + Pack(bits).bytes
    ensures bits == [] <==> Pack(bits).bytes == []
  {
  }

  ghost predicate SameBits(records: seq<Record>) {
    forall i :: 0 <= i < |records| ==> records[i].alice == records[i].bob
  }

  /** Every answer that carries bits has reached Bob. */
  ghost predicate AllBitsHeard(records: seq<Record>) {
    forall i :: 0 <= i < |records| && records[i].fate in {Outstanding, Unheard} ==> records[i].alice == []
  }

  // One more record, as bytes of either log.
  lemma LogBytesStep(records: seq<Record>, r: Record)
    ensures LogBytes(AliceLog(records + [r])) == LogBytes(AliceLog(records)) + Pack(AliceBlock(r)).bytes
    ensures LogBytes(BobLog(records + [r])) == LogBytes(BobLog(records)) + if r.fate.Delivered? then Pack(r.bob).bytes else []
    ensures AliceBlock(r) == [] <==> Pack(AliceBlock(r)).bytes == []
  {
    hide AliceLog, BobLog, LogBytes, Pack;
    AliceLogAppend(records, r);
    BobLogAppend(records, r);
    LogBytesAppend(AliceLog(records), AliceBlock(r));
    if r.fate.Delivered? {
      LogBytesAppend(BobLog(records), r.bob);
    } else {
      assert BobLog(records) + [] == BobLog(records);
      assert LogBytes(BobLog(records)) + [] == LogBytes(BobLog(records));
    }
  }

  // When each request yields both parties the same bits, Bob's stream is shorter by what he has not heard.
  lemma {:induction false} SameBitsStreams(records: seq<Record>)
    requires SameBits(records)
    ensures |LogBytes(BobLog(records))| <= |LogBytes(AliceLog(records))|
    ensures |LogBytes(BobLog(records))| == |LogBytes(AliceLog(records))| <==> AllBitsHeard(records)
    ensures AllBitsHeard(records) ==> LogBytes(AliceLog(records)) == LogBytes(BobLog(records))
  {
    hide AliceLog, BobLog, LogBytes, Pack;
    if records == [] {
      NoRecordsNoBytes();
      assert records == [];
    } else {
      var last := |records| - 1;
      var r, before := records[last], records[..last];
      assert records == before + [r];
      SameBitsStreams(before);
      LogBytesStep(before, r);
      assert AllBitsHeard(records) <==> AllBitsHeard(before) && (r.fate in {Outstanding, Unheard} ==> r.alice == []);
    }
  }

  lemma NoRecordsNoBytes()
    ensures LogBytes(AliceLog([])) == [] == LogBytes(BobLog([]))
  {
  }

  // If what Bob will never hear carries no bits, at most one answer makes the difference: the one on its way.
  lemma {:induction false} PrefixStreams(records: seq<Record>, k: nat)
    requires SameBits(records) && k < |records| && NoneDeliveredFrom(records, k)
    requires forall i :: 0 <= i < |records| && i != k && records[i].fate in {Outstanding, Unheard} ==> records[i].alice == []
    ensures LogBytes(BobLog(records)) <= LogBytes(AliceLog(records))
    decreases |records|
  {
    hide AliceLog, BobLog, LogBytes, Pack;
    var last := |records| - 1;
    var r, before := records[last], records[..last];
    assert records == before + [r];
    LogBytesStep(before, r);
    if k < last {
      PrefixStreams(before, k);
    } else {
      SameBitsStreams(before);
    }
  }

  /** Each delivered answer gave both parties the same bits. */
  ghost predicate DeliveredSame(records: seq<Record>) {
    forall i :: 0 <= i < |records| && records[i].fate.Delivered? ==> records[i].alice == records[i].bob
  }

  lemma ConcatSplit<T>(a: seq<T>, b: seq<T>, c: seq<T>, d: seq<T>)
    requires |a| == |c|
    ensures a + b == c + d <==> a == c && b == d
  {
    if a + b == c + d {
      assert a == (a + b)[..|a|] && b == (a + b)[|a|..];
      assert c == (c + d)[..|c|] && d == (c + d)[|c|..];
    }
  }

  // When each request yields equally many bits, the streams differ exactly when some delivered answer does.
  lemma {:induction false} SameLengthStreams(records: seq<Record>)
    requires forall i :: 0 <= i < |records| ==> |records[i].alice| == |records[i].bob| && records[i].fate in {Delivered, Aborted}
    ensures |LogBytes(AliceLog(records))| == |LogBytes(BobLog(records))|
    ensures LogBytes(AliceLog(records)) == LogBytes(BobLog(records)) <==> DeliveredSame(records)
  {
    hide AliceLog, BobLog, LogBytes, Pack;
    if records == [] {
      NoRecordsNoBytes();
      assert records == [];
    } else {
      var last := |records| - 1;
      var r, before := records[last], records[..last];
      assert records == before + [r];
      SameLengthStreams(before);
      LogBytesStep(before, r);
      assert DeliveredSame(records) <==> DeliveredSame(before) && (r.fate.Delivered? ==> r.alice == r.bob);
      if r.fate.Delivered? {
        PackSize(r.alice);
        PackSize(r.bob);
        PackBytesAgree(r.alice, r.bob);
        ConcatSplit(LogBytes(AliceLog(before)), Pack(r.alice).bytes, LogBytes(BobLog(before)), Pack(r.bob).bytes);
      } else {
        assert LogBytes(AliceLog(before)) + [] == LogBytes(AliceLog(before));
      }
    }
  }

  lemma {:induction false} LogLengths(records: seq<Record>)
    ensures |BobLog(records)| == |records| <==> forall i :: 0 <= i < |records| ==> records[i].fate.Delivered?
  {
    if records != [] {
      LogLengths(records[..|records| - 1]);
    }
  }
}
