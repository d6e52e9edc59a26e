/** What becomes of the blocks that are delivered: over every run of a pack, the queue of verified
    blocks holds, in order, what was admitted and not yet taken out by the writer. */
module Histories {
  import opened Words
  import opened Blocks
  import opened Coverage
  import opened Chain
  import opened Download

  /** File f is the first with that hash. */
  ghost predicate FirstWith(files: seq<FileState>, fileHash: string, f: nat) {
    f < |files| && files[f].hash == fileHash && forall k :: 0 <= k < f ==> files[k].hash != fileHash
  }

  /** A block that the event delivers for file f of an active pack, and that is accepted there. */
  ghost predicate Admits(h: Hasher, p: PackState, ev: Event, f: nat) {
    ev.Fulfill? && p.status == Active && FirstWith(p.files, ev.fileHash, f) && Accepts(h, p.files[f], ev.block)
  }

  ghost predicate AdmitsSome(h: Hasher, p: PackState, ev: Event) {
    exists f: nat :: Admits(h, p, ev, f)
  }

  ghost function AdmittedTo(h: Hasher, p: PackState, ev: Event): (f: nat)
    requires AdmitsSome(h, p, ev)
    ensures Admits(h, p, ev, f)
  {
    var f: nat :| Admits(h, p, ev, f);
    f
  }

  /** The blocks admitted by the events before k, in order. */
  ghost function Admitted(h: Hasher, ps: seq<PackState>, evs: seq<Event>, k: nat): seq<VerifiedBlock>
    requires |ps| == |evs| + 1 && k <= |evs|
  {
    if k == 0 then []
    else
      var before := Admitted(h, ps, evs, k - 1);
      var p, ev := ps[k - 1], evs[k - 1];
      if AdmitsSome(h, p, ev) then before + [VerifiedBlock(AdmittedTo(h, p, ev), ev.block, h.block(ev.block))]
      else before
  }

  /** How many rounds of the writer before k have found a block. */
  ghost function Rounds(ps: seq<PackState>, evs: seq<Event>, k: nat): nat
    requires |ps| == |evs| + 1 && k <= |evs|
  {
    if k == 0 then 0 else Rounds(ps, evs, k - 1) + if evs[k - 1].Write? && ps[k - 1].queue != [] then 1 else 0
  }

  lemma FirstIsFound(files: seq<FileState>, fileHash: string, f: nat)
    ensures FirstWith(files, fileHash, f) <==> FindFile(files, fileHash) == Some(f)
  {
    var found := FindFile(files, fileHash);
    if FirstWith(files, fileHash, f) && found.Some? {
      assert found.value <= f && f <= found.value;
    }
  }

  ghost predicate QueueIsRest(h: Hasher, ps: seq<PackState>, evs: seq<Event>, k: nat)
    requires |ps| == |evs| + 1 && k <= |evs|
  {
    var admitted, rounds := Admitted(h, ps, evs, k), Rounds(ps, evs, k);
    && rounds <= |admitted| && ps[k].queue == admitted[rounds..]
    && forall q :: 0 <= q < |admitted| ==> admitted[q].file < |ps[k].files|
  }

  /** First in, first out, and nothing lost: in every state of every run from an advertised pack
      the queue is what was admitted, less what the writer has taken, in order. */
  lemma {:induction false} QueueIsTheRest(h: Hasher, sources: Sources, ps: seq<PackState>, evs: seq<Event>, k: nat)
    requires IsRun(h, ps, evs) && Advertised(h, sources, ps[0]) && k <= |evs|
    ensures QueueIsRest(h, ps, evs, k)
  {
    if k > 0 {
      assert StepAt(h, ps, evs, k - 1);
      QueueIsTheRest(h, sources, ps, evs, k - 1);
      QueueStep(h, ps, evs, k - 1);
    }
  }

  lemma QueueStep(h: Hasher, ps: seq<PackState>, evs: seq<Event>, k: nat)
    requires IsRun(h, ps, evs) && k < |evs| && QueueIsRest(h, ps, evs, k)
    ensures QueueIsRest(h, ps, evs, k + 1)
  {
    var p, ev, p' := ps[k], evs[k], ps[k + 1];
    var admitted, rounds := Admitted(h, ps, evs, k), Rounds(ps, evs, k);
    assert StepAt(h, ps, evs, k) && |p'.files| == |p.files|;
    if AdmitsSome(h, p, ev) {
      var f := AdmittedTo(h, p, ev);
      FirstIsFound(p.files, ev.fileHash, f);
      assert Admitted(h, ps, evs, k + 1) == admitted + [VerifiedBlock(f, ev.block, h.block(ev.block))];
    } else {
      assert Admitted(h, ps, evs, k + 1) == admitted;
      if ev.Fulfill? && FindFile(p.files, ev.fileHash).Some? {
        FirstIsFound(p.files, ev.fileHash, FindFile(p.files, ev.fileHash).value);
        assert !Admits(h, p, ev, FindFile(p.files, ev.fileHash).value);
      }
    }
    if ev.Write? && p.queue != [] {
      assert p.queue[0] == admitted[rounds];
    }
  }

  /** The q-th admitted block is taken by the round that finds it in front. */
  lemma {:induction false} RoundOf(ps: seq<PackState>, evs: seq<Event>, k: nat, q: nat) returns (w: nat)
    requires |ps| == |evs| + 1 && k <= |evs| && q < Rounds(ps, evs, k)
    ensures w < k && evs[w].Write? && ps[w].queue != [] && Rounds(ps, evs, w) == q
  {
    if q < Rounds(ps, evs, k - 1) {
      w := RoundOf(ps, evs, k - 1, q);
    } else {
      w := k - 1;
    }
  }

  lemma {:induction false} AdmittedGrows(h: Hasher, ps: seq<PackState>, evs: seq<Event>, w: nat, k: nat)
    requires |ps| == |evs| + 1 && w <= k <= |evs|
    ensures Admitted(h, ps, evs, w) <= Admitted(h, ps, evs, k)
    decreases k
  {
    if w < k {
      AdmittedGrows(h, ps, evs, w, k - 1);
    }
  }

  lemma TakenInTurn(h: Hasher, sources: Sources, ps: seq<PackState>, evs: seq<Event>, k: nat, q: nat)
    returns (w: nat)
    requires IsRun(h, ps, evs) && Advertised(h, sources, ps[0]) && k <= |evs| && q < Rounds(ps, evs, k)
    ensures w < k && evs[w].Write? && ps[w].queue != [] && Rounds(ps, evs, w) == q
    ensures q < |Admitted(h, ps, evs, k)| && ps[w].queue[0] == Admitted(h, ps, evs, k)[q]
  {
    w := RoundOf(ps, evs, k, q);
    QueueIsTheRest(h, sources, ps, evs, w);
    AdmittedGrows(h, ps, evs, w, k);
    assert ps[w].queue[0] == Admitted(h, ps, evs, w)[q];
  }

  /** Every round of the writer that finds a block succeeds. */
  ghost predicate AllWilling(ps: seq<PackState>, evs: seq<Event>) {
    |ps| == |evs| + 1 &&
    forall k :: 0 <= k < |evs| && evs[k].Write? && ps[k].queue != [] ==> Willing(evs[k].io, ps[k].queue[0])
  }

  lemma {:induction false} StaysCovered(h: Hasher, ps: seq<PackState>, evs: seq<Event>, w: nat, k: nat, f: nat, j: nat)
    requires IsRun(h, ps, evs) && w <= k <= |evs| && f < |ps[w].files| && Has(ps[w].files[f].coverage, j)
    requires forall i :: w <= i < k ==> !evs[i].Start?
    ensures f < |ps[k].files| && Has(ps[k].files[f].coverage, j)
    decreases k
  {
    if w < k {
      assert StepAt(h, ps, evs, k - 1);
      StaysCovered(h, ps, evs, w, k - 1, f, j);
      StepGrows(h, ps[k - 1], evs[k - 1], ps[k], f);
    }
  }

  /** The coverage has a bit for the block, which nothing accepted lacks but the empty block past
      the words, and its offset is an int64. */
  ghost predicate HasPlace(st: FileState, vb: VerifiedBlock) {
    vb.block.index / 64 < |st.coverage| && BUFFER_SIZE * vb.block.index % TWO_TO_THE_64 < TWO_TO_THE_63
  }

  lemma RoundCovers(h: Hasher, ps: seq<PackState>, evs: seq<Event>, w: nat)
    requires IsRun(h, ps, evs) && w < |evs| && evs[w].Write? && ps[w].queue != []
    requires var vb := ps[w].queue[0];
      vb.file < |ps[w].files| && Willing(evs[w].io, vb) && HasPlace(ps[w].files[vb.file], vb)
    ensures var vb := ps[w].queue[0];
      vb.file < |ps[w + 1].files| && Has(ps[w + 1].files[vb.file].coverage, vb.block.index)
  {
    var vb := ps[w].queue[0];
    assert StepAt(h, ps, evs, w);
    WriteExactly(ps[w].files[vb.file], vb, evs[w].io);
  }

  /** Nothing admitted is lost.  From an advertised pack that is started at most once, when every
      round of the writer succeeds, each block that it has had a round for is covered -- with an
      empty queue, each that was ever admitted -- provided it had a place in the bitmap. */
  lemma AdmittedGetCovered(h: Hasher, sources: Sources, ps: seq<PackState>, evs: seq<Event>, k: nat, q: nat)
    requires IsRun(h, ps, evs) && Advertised(h, sources, ps[0]) && StartsAtMostOnce(evs) && AllWilling(ps, evs)
    requires k <= |evs| && q < |Admitted(h, ps, evs, k)|
    requires q < Rounds(ps, evs, k) || ps[k].queue == []
    ensures var vb := Admitted(h, ps, evs, k)[q];
      && vb.file < |ps[k].files|
      && (HasPlace(ps[k].files[vb.file], vb) ==> Has(ps[k].files[vb.file].coverage, vb.block.index))
  {
    QueueIsTheRest(h, sources, ps, evs, k);
    var w := TakenInTurn(h, sources, ps, evs, k, q);
    var vb := Admitted(h, ps, evs, k)[q];
    RunIsLinked(h, sources, ps, evs, w);
    assert !NoStartBefore(evs, w);
    SameCoverageLength(h, ps, evs, w, k, vb.file);
    if HasPlace(ps[k].files[vb.file], vb) {
      RoundCovers(h, ps, evs, w);
      StaysCovered(h, ps, evs, w + 1, k, vb.file, vb.block.index);
    }
  }

  lemma {:induction false} SameCoverageLength(h: Hasher, ps: seq<PackState>, evs: seq<Event>, w: nat, k: nat, f: nat)
    requires IsRun(h, ps, evs) && w <= k <= |evs| && f < |ps[k].files|
    requires forall i :: w <= i < k ==> !evs[i].Start?
    ensures |ps[w].files| == |ps[k].files| && |ps[w].files[f].coverage| == |ps[k].files[f].coverage|
    decreases k
  {
    if w < k {
      assert StepAt(h, ps, evs, k - 1);
      assert |ps[k - 1].files| == |ps[k].files|;
      SameCoverageLength(h, ps, evs, w, k - 1, f);
      if evs[k - 1].Write? && ps[k - 1].queue != [] && ps[k - 1].queue[0].file == f {
        WriteExactly(ps[k - 1].files[f], ps[k - 1].queue[0], evs[k - 1].io);
      }
    }
  }
}
