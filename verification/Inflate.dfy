// The trial decompression of an archive entry (sanitizers/archive.c, trial_inflate_entry) over
// any streaming inflater that reports its progress honestly.
module Inflate {
  import opened Bytes

  const INPUT_SLICE: nat := 0x10_0000

  datatype Ret = StreamEnd | Progress | BufError | Failure

  /** One call: how much input was taken and output made, and the code returned. */
  datatype Answer = Answer(consumed: nat, produced: nat, ret: Ret)

  /** What a compressed stream comes to: it ends after so many bytes of output, or it never does. */
  datatype Fate = Ends(total: nat) | Broken

  /** `step(src, t, c, p, avail, room)` is the t-th call, when c bytes of `src` have been consumed
      and p bytes produced, with `avail` more bytes of input in sight and `room` for output. */
  datatype Inflater = Inflater(
    fate: bytes -> Fate,
    step: (bytes, nat, nat, nat, nat, nat) -> Answer)

  ghost predicate HonestAt(z: Inflater, src: bytes, t: nat, c: nat, p: nat, avail: nat, room: nat) {
    c + avail <= |src| && room > 0 && (z.fate(src).Ends? ==> p <= z.fate(src).total) ==>
      var x := z.step(src, t, c, p, avail, room);
      && x.consumed <= avail && x.produced <= room
      // it ends where the stream ends, and fails only on a stream that does not end
      && (x.ret.StreamEnd? ==> z.fate(src) == Ends(p + x.produced))
      && (x.ret.Failure? ==> z.fate(src).Broken?)
      && (z.fate(src).Ends? ==> p + x.produced <= z.fate(src).total)
      // it stands still on a sound stream only for want of input that is still to come
      && (x.consumed == 0 && x.produced == 0 && !x.ret.StreamEnd? && z.fate(src).Ends? ==>
            avail == 0 && c < |src|)
  }

  ghost predicate Honest(z: Inflater) {
    forall src, t, c, p, avail, room :: HonestAt(z, src, t, c, p, avail, room)
  }

  /** Returns 0 exactly when the stream ends having produced exactly the declared number of bytes,
      however the input is cut and however small the scratch buffer. */
  method TrialInflate(z: Inflater, src: bytes, declared: nat, scratch: nat) returns (rc: int)
    requires Honest(z) && scratch > 0
    ensures rc == 0 <==> z.fate(src) == Ends(declared)
    ensures rc == 0 || rc == -1 || (rc == -2 && z.fate(src).Broken?)
  {
    var total: nat, fed: nat, avail: nat, t: nat := 0, 0, 0, 0;
    while true
      invariant avail <= fed <= |src| && total <= declared
      invariant z.fate(src).Ends? ==> total <= z.fate(src).total
      decreases |src| - (fed - avail) + declared - total
    {
      if avail == 0 && fed < |src| {
        var slice := |src| - fed;
        if slice > INPUT_SLICE {
          slice := INPUT_SLICE;
        }
        avail := slice;
        fed := fed + slice;
      }
      var before := avail;
      assert HonestAt(z, src, t, fed - avail, total, avail, scratch);
      var x := z.step(src, t, fed - avail, total, avail, scratch);
      avail := avail - x.consumed;
      total := total + x.produced;
      if total > declared {
        return -1;
      }
      if x.ret.StreamEnd? {
        return if total != declared then -1 else 0;
      }
      if x.ret.Failure? {
        return -2;
      }
      if x.produced == 0 && avail == before {
        return -2;
      }
      t := t + 1;
    }
  }

  /** The inflater of stored bytes: it takes in all it is shown and hands it out as there is room. */
  function StoredInflater(): Inflater {
    Inflater(
      (src: bytes) => Ends(|src|),
      (src: bytes, t: nat, c: nat, p: nat, avail: nat, room: nat) =>
        if c + avail <= p then Answer(avail, 0, if p == |src| then StreamEnd else BufError)
        else
          var n := if c + avail - p < room then c + avail - p else room;
          Answer(avail, n, if p + n == |src| then StreamEnd else Progress))
  }

  /** The laws can be met. */
  lemma HonestInflaterExists()
    ensures Honest(StoredInflater())
  {
  }
}
