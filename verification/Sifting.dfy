/** Messages of the sifting protocol and the packing of sifted bits both parties share. */
module Sifting {
  import opened Qubits
  import opened BitPacking

  type Intensity = nat
  type SequenceNumber = nat

  datatype EmitterReport = EmitterReport(frame: SequenceNumber, emissions: seq<Qubit>, intensities: seq<Intensity>)

  datatype DetectionReport = DetectionReport(frame: SequenceNumber, detections: seq<Detection>)

  /** One measured basis as it travels to the verifier: the emission it claims to be for, and the basis. */
  datatype IndexedBasis = IndexedBasis(index: nat, basis: bv8)

  datatype BasisAnswers = BasisAnswers(answers: seq<bool>, intensity: seq<Intensity>)

  type BasisByFrame = map<SequenceNumber, seq<IndexedBasis>>
  type AnswersByFrame = map<SequenceNumber, BasisAnswers>

  // ---------- Frames in ascending order ----------

  predicate IsLeast(keys: set<nat>, k: nat) {
    k in keys && forall x :: x in keys ==> k <= x
  }

  lemma LeastOfTwo(keys: set<nat>, k: nat, m: nat)
    requires k in keys && IsLeast(keys - {k}, m)
    ensures IsLeast(keys, if k <= m then k else m)
  {
    forall x | x in keys ensures (if k <= m then k else m) <= x {
      assert x == k || x in keys - {k};
    }
  }

  lemma {:induction false} LeastExists(keys: set<nat>)
    requires keys != {}
    ensures exists k :: IsLeast(keys, k)
  {
    var k :| k in keys;
    if keys == {k} {
      assert IsLeast(keys, k);
    } else {
      hide IsLeast;
      assert keys - {k} != {};
      LeastExists(keys - {k});
      var m :| IsLeast(keys - {k}, m);
      LeastOfTwo(keys, k, m);
    }
  }

  /** The key an ordered map visits first. */
  function Least(keys: set<nat>): (k: nat)
    requires keys != {}
    ensures k in keys
    ensures forall x :: x in keys ==> k <= x
  {
    LeastExists(keys);
    var k :| k in keys && IsLeast(keys, k);
    k
  }

  // ---------- Which qubits are kept ----------

  /** Reading the intensity of every matching position below n stays inside the answer. */
  predicate Readable(ans: BasisAnswers, n: nat) {
    ans.intensity == [] || forall i :: 0 <= i < n && i < |ans.answers| && ans.answers[i] ==> i < |ans.intensity|
  }

  predicate Kept(index: nat, ans: BasisAnswers, discarded: set<Intensity>)
    requires Readable(ans, index + 1)
  {
    && index < |ans.answers| && ans.answers[index]
    && (ans.intensity == [] || ans.intensity[index] !in discarded)
  }

  /** The kept positions below n, ascending. */
  function KeptIndexes(n: nat, ans: BasisAnswers, discarded: set<Intensity>): (ks: seq<nat>)
    requires Readable(ans, n)
    ensures forall j :: 0 <= j < |ks| ==> ks[j] < n && ks[j] < |ans.answers|
  {
    if n == 0 then []
    else KeptIndexes(n - 1, ans, discarded) + if Kept(n - 1, ans, discarded) then [n - 1] else []
  }

  // The kept positions are exactly those whose basis matched and whose intensity is not discarded, in order.
  lemma {:induction false} KeptIndexesExact(n: nat, ans: BasisAnswers, discarded: set<Intensity>)
    requires Readable(ans, n)
    ensures forall i: nat :: i in KeptIndexes(n, ans, discarded) <==> i < n && Kept(i, ans, discarded)
    ensures forall j, k :: 0 <= j < k < |KeptIndexes(n, ans, discarded)|
                           ==> KeptIndexes(n, ans, discarded)[j] < KeptIndexes(n, ans, discarded)[k]
  {
    if n > 0 {
      KeptIndexesExact(n - 1, ans, discarded);
    }
  }

  // Positions that were never answered are never kept.
  lemma {:induction false} KeptBeyondAnswers(n: nat, m: nat, ans: BasisAnswers, discarded: set<Intensity>)
    requires |ans.answers| <= m <= n && Readable(ans, n)
    ensures KeptIndexes(n, ans, discarded) == KeptIndexes(m, ans, discarded)
    decreases n
  {
    if m < n {
      KeptBeyondAnswers(n - 1, m, ans, discarded);
    }
  }

  /** The bit values at the given positions. */
  function BitsAt(qubits: seq<Qubit>, indexes: seq<nat>): (bits: seq<bool>)
    requires forall j :: 0 <= j < |indexes| ==> indexes[j] < |qubits|
  {
    seq(|indexes|, j requires 0 <= j < |indexes| => BitValue(qubits[indexes[j]]))
  }

  /** The bits one frame contributes. */
  function FrameBits(qubits: seq<Qubit>, ans: BasisAnswers, discarded: set<Intensity>): seq<bool>
    requires Readable(ans, |qubits|)
  {
    BitsAt(qubits, KeptIndexes(|qubits|, ans, discarded))
  }

  lemma FrameBitsStep(qubits: seq<Qubit>, n: nat, ans: BasisAnswers, discarded: set<Intensity>)
    requires n < |qubits| && Readable(ans, |qubits|)
    ensures FrameBits(qubits[..n + 1], ans, discarded)
         == FrameBits(qubits[..n], ans, discarded) + if Kept(n, ans, discarded) then [BitValue(qubits[n])] else []
  {
  }

  ghost predicate AllReadable(qubits: map<SequenceNumber, seq<Qubit>>, answers: AnswersByFrame) {
    forall f :: f in qubits && f in answers ==> Readable(answers[f], |qubits[f]|)
  }

  /** The bits of one frame, which may have gone unanswered. */
  function Contribution(f: SequenceNumber, qubits: map<SequenceNumber, seq<Qubit>>,
                        answers: AnswersByFrame, discarded: set<Intensity>): seq<bool>
    requires f in qubits && (f in answers ==> Readable(answers[f], |qubits[f]|))
  {
    if f in answers then FrameBits(qubits[f], answers[f], discarded) else []
  }

  /** The bits the given frames contribute, lowest frame first; a frame without answers contributes none. */
  ghost function SiftedBits(frames: set<SequenceNumber>, qubits: map<SequenceNumber, seq<Qubit>>,
                            answers: AnswersByFrame, discarded: set<Intensity>): seq<bool>
    requires frames <= qubits.Keys && AllReadable(qubits, answers)
    decreases |frames|
  {
    if frames == {} then []
    else
      var f := Least(frames);
      Contribution(f, qubits, answers, discarded) + SiftedBits(frames - {f}, qubits, answers, discarded)
  }

  lemma NoFramesNoBits(qubits: map<SequenceNumber, seq<Qubit>>, answers: AnswersByFrame, discarded: set<Intensity>)
    requires AllReadable(qubits, answers)
    ensures SiftedBits({}, qubits, answers, discarded) == []
  {
  }

  lemma {:induction false} SiftedStep(done: seq<bool>, frames: set<SequenceNumber>, qubits: map<SequenceNumber, seq<Qubit>>,
                   answers: AnswersByFrame, discarded: set<Intensity>)
    requires frames != {} && frames <= qubits.Keys && AllReadable(qubits, answers)
    ensures done + SiftedBits(frames, qubits, answers, discarded)
         == (done + Contribution(Least(frames), qubits, answers, discarded))
            + SiftedBits(frames - {Least(frames)}, qubits, answers, discarded)
  {
    var f := Least(frames);
    var c, rest := Contribution(f, qubits, answers, discarded), SiftedBits(frames - {f}, qubits, answers, discarded);
    assert SiftedBits(frames, qubits, answers, discarded) == c + rest;
    assert done + (c + rest) == (done + c) + rest;
  }

  // ---------- Which bits those are ----------

  /** A position that contributes a bit: the frame and the place in its list. */
  datatype Position = Position(frame: SequenceNumber, index: nat)

  function AtFrame(f: SequenceNumber, indexes: seq<nat>): (ps: seq<Position>)
    ensures |ps| == |indexes|
  {
    seq(|indexes|, j requires 0 <= j < |indexes| => Position(f, indexes[j]))
  }

  /** The position was answered with yes and its intensity is not discarded. */
  ghost predicate IsPacked(p: Position, qubits: map<SequenceNumber, seq<Qubit>>, answers: AnswersByFrame,
                           discarded: set<Intensity>)
    requires AllReadable(qubits, answers)
  {
    && p.frame in qubits && p.frame in answers && p.index < |qubits[p.frame]|
    && p.index < |answers[p.frame].answers| && answers[p.frame].answers[p.index]
    && (answers[p.frame].intensity == [] || answers[p.frame].intensity[p.index] !in discarded)
  }

  /** By frame, and by place within a frame. */
  ghost predicate InOrder(ps: seq<Position>) {
    forall i, j :: 0 <= i < j < |ps| ==>
      ps[i].frame < ps[j].frame || (ps[i].frame == ps[j].frame && ps[i].index < ps[j].index)
  }

  /** Bit j is the last binary digit of the qubit at position j. */
  ghost predicate DigitsAt(ps: seq<Position>, qubits: map<SequenceNumber, seq<Qubit>>, bits: seq<bool>) {
    && |bits| == |ps|
    && forall j :: 0 <= j < |ps| ==>
         ps[j].frame in qubits && ps[j].index < |qubits[ps[j].frame]|
         && (bits[j] <==> qubits[ps[j].frame][ps[j].index] % 2 == 1)
  }

  /** The positions of all bits the given frames contribute. */
  ghost function SiftedPositions(frames: set<SequenceNumber>, qubits: map<SequenceNumber, seq<Qubit>>,
                                 answers: AnswersByFrame, discarded: set<Intensity>): seq<Position>
    requires frames <= qubits.Keys && AllReadable(qubits, answers)
    decreases |frames|
  {
    if frames == {} then []
    else
      var f := Least(frames);
      (if f in answers then AtFrame(f, KeptIndexes(|qubits[f]|, answers[f], discarded)) else [])
      + SiftedPositions(frames - {f}, qubits, answers, discarded)
  }

  lemma PackedInFrame(p: Position, qubits: map<SequenceNumber, seq<Qubit>>, answers: AnswersByFrame,
                      discarded: set<Intensity>)
    requires AllReadable(qubits, answers) && p.frame in qubits && p.frame in answers
    ensures p in AtFrame(p.frame, KeptIndexes(|qubits[p.frame]|, answers[p.frame], discarded))
       <==> IsPacked(p, qubits, answers, discarded)
  {
    var ks := KeptIndexes(|qubits[p.frame]|, answers[p.frame], discarded);
    KeptIndexesExact(|qubits[p.frame]|, answers[p.frame], discarded);
    assert p.index in ks <==> IsPacked(p, qubits, answers, discarded);
    if p.index in ks {
      var j :| 0 <= j < |ks| && ks[j] == p.index;
      assert AtFrame(p.frame, ks)[j] == p;
    }
  }

  lemma FramePositions(f: SequenceNumber, qubits: map<SequenceNumber, seq<Qubit>>, answers: AnswersByFrame,
                       discarded: set<Intensity>)
    requires AllReadable(qubits, answers) && f in qubits && f in answers
    ensures var ps := AtFrame(f, KeptIndexes(|qubits[f]|, answers[f], discarded));
            && InOrder(ps) && DigitsAt(ps, qubits, FrameBits(qubits[f], answers[f], discarded))
            && forall p: Position :: p in ps <==> p.frame == f && IsPacked(p, qubits, answers, discarded)
  {
    hide IsPacked, KeptIndexes;
    var ks := KeptIndexes(|qubits[f]|, answers[f], discarded);
    KeptIndexesExact(|qubits[f]|, answers[f], discarded);
    forall p: Position | p.frame == f ensures p in AtFrame(f, ks) <==> IsPacked(p, qubits, answers, discarded) {
      PackedInFrame(p, qubits, answers, discarded);
    }
    forall j | 0 <= j < |ks| ensures BitValue(qubits[f][ks[j]]) <==> qubits[f][ks[j]] % 2 == 1 {
      QubitDigits(qubits[f][ks[j]]);
    }
  }

  lemma InOrderAppend(a: seq<Position>, b: seq<Position>)
    requires InOrder(a) && InOrder(b)
    requires forall p, q :: p in a && q in b ==> p.frame < q.frame
    ensures InOrder(a + b)
  {
    forall i, j | 0 <= i < |a| && 0 <= j < |b| ensures a[i].frame < b[j].frame {
      assert a[i] in a && b[j] in b;
    }
  }

  lemma DigitsAppend(a: seq<Position>, b: seq<Position>, qubits: map<SequenceNumber, seq<Qubit>>, x: seq<bool>, y: seq<bool>)
    requires DigitsAt(a, qubits, x) && DigitsAt(b, qubits, y)
    ensures DigitsAt(a + b, qubits, x + y)
  {
  }

  /** The packed bits are the key bits at exactly the selected positions of these frames, in order. */
  lemma {:induction false} SiftedBitsExact(frames: set<SequenceNumber>, qubits: map<SequenceNumber, seq<Qubit>>,
                                           answers: AnswersByFrame, discarded: set<Intensity>)
    requires frames <= qubits.Keys && AllReadable(qubits, answers)
    ensures var ps := SiftedPositions(frames, qubits, answers, discarded);
            && InOrder(ps) && DigitsAt(ps, qubits, SiftedBits(frames, qubits, answers, discarded))
            && forall p: Position :: p in ps <==> p.frame in frames && IsPacked(p, qubits, answers, discarded)
    decreases |frames|
  {
    hide InOrder, DigitsAt, FrameBits;
    if frames == {} {
      NoPositions(qubits);
    } else {
      var f := Least(frames);
      var first := if f in answers then AtFrame(f, KeptIndexes(|qubits[f]|, answers[f], discarded)) else [];
      var rest := SiftedPositions(frames - {f}, qubits, answers, discarded);
      SiftedBitsExact(frames - {f}, qubits, answers, discarded);
      NoPositions(qubits);
      if f in answers { FramePositions(f, qubits, answers, discarded); }
      InOrderAppend(first, rest);
      DigitsAppend(first, rest, qubits, Contribution(f, qubits, answers, discarded),
                   SiftedBits(frames - {f}, qubits, answers, discarded));
    }
  }

  lemma NoPositions(qubits: map<SequenceNumber, seq<Qubit>>)
    ensures InOrder([]) && DigitsAt([], qubits, [])
  {
  }

  /**
   * Pack one qubit if its basis matched and its intensity is kept.
   * `bits` names what the block and the buffer hold so far.
   */
  method PackQubit(qubit: Qubit, index: nat, ans: BasisAnswers, discarded: set<Intensity>,
                   siftedData: JaggedDataBlock, offset: nat, byteBuffer: bv8, ghost bits: seq<bool>)
    returns (result: bool, offset': nat, byteBuffer': bv8)
    requires Readable(ans, index + 1)
    requires siftedData.Holds(bits, offset, byteBuffer)
    modifies siftedData
    ensures result == Kept(index, ans, discarded)
    ensures siftedData.Holds(bits + (if result then [BitValue(qubit)] else []), offset', byteBuffer')
  {
    result, offset', byteBuffer' := false, offset, byteBuffer;
    assert bits + [] == bits;
    if index < |ans.answers| && ans.answers[index] == true {
      if ans.intensity == [] || ans.intensity[index] !in discarded {
        result := true;
        offset', byteBuffer' := siftedData.AddBit(BitValue(qubit), offset, byteBuffer, bits);
      }
    }
  }

  /** Pack the kept qubits of one frame. */
  method PackFrame(list: seq<Qubit>, ans: BasisAnswers, discarded: set<Intensity>,
                   siftedData: JaggedDataBlock, offset: nat, byteBuffer: bv8, ghost bits: seq<bool>)
    returns (offset': nat, byteBuffer': bv8)
    requires Readable(ans, |list|)
    requires siftedData.Holds(bits, offset, byteBuffer)
    modifies siftedData
    ensures siftedData.Holds(bits + FrameBits(list, ans, discarded), offset', byteBuffer')
  {
    hide FullBytes, Pending, Byte;
    offset', byteBuffer' := offset, byteBuffer;
    ghost var packed := bits;
    var index := 0;
    while index < |list|
      invariant 0 <= index <= |list|
      invariant packed == bits + FrameBits(list[..index], ans, discarded)
      invariant siftedData.Holds(packed, offset', byteBuffer')
    {
      FrameBitsStep(list, index, ans, discarded);
      var used;
      used, offset', byteBuffer' :=
        PackQubit(list[index], index, ans, discarded, siftedData, offset', byteBuffer', packed);
      packed := packed + if used then [BitValue(list[index])] else [];
      index := index + 1;
    }
    assert list[..index] == list;
  }

  /** Pack the kept qubits of every frame, walking the frames in ascending order. */
  method PackFrames(qubits: map<SequenceNumber, seq<Qubit>>, answers: AnswersByFrame, discarded: set<Intensity>)
    returns (block: JaggedBlock)
    requires AllReadable(qubits, answers)
    ensures block == Pack(SiftedBits(qubits.Keys, qubits, answers, discarded))
  {
    hide SiftedBits, FrameBits, FullBytes, Pending, Byte, Pack;
    var siftedData := new JaggedDataBlock();
    var value: bv8, offset: nat := 0, 0;
    ghost var bits: seq<bool> := [];
    assert bits + SiftedBits(qubits.Keys, qubits, answers, discarded)
        == SiftedBits(qubits.Keys, qubits, answers, discarded);
    var remaining := qubits.Keys;
    while remaining != {}
      invariant remaining <= qubits.Keys
      invariant siftedData.Holds(bits, offset, value)
      invariant fresh(siftedData)
      invariant bits + SiftedBits(remaining, qubits, answers, discarded)
             == SiftedBits(qubits.Keys, qubits, answers, discarded)
      decreases |remaining|
    {
      var frame := Least(remaining);
      SiftedStep(bits, remaining, qubits, answers, discarded);
      if frame in answers {
        offset, value := PackFrame(qubits[frame], answers[frame], discarded, siftedData, offset, value, bits);
      } else {
        assert bits + [] == bits;
      }
      bits := bits + Contribution(frame, qubits, answers, discarded);
      remaining := remaining - {frame};
    }
    NoFramesNoBits(qubits, answers, discarded);
    assert bits == SiftedBits(qubits.Keys, qubits, answers, discarded);
    siftedData.Flush(offset, value, bits);
    block := siftedData.Value();
  }

  /** One call of the sifted-data callback: its sequence number and its block. */
  datatype Publication = Publication(id: SequenceNumber, block: JaggedBlock)

  /** All bytes published so far, in order. */
  function Bytes(published: seq<Publication>): seq<bv8> {
    if published == [] then []
    else Bytes(published[..|published| - 1]) + published[|published| - 1].block.bytes
  }
}
