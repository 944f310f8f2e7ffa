/** Next scans for text: an address survives while it still holds the text. */
module TextScans {
  import opened Wrappers
  import opened Bytes
  import opened ProcessMemory
  import opened Scans

  predicate HoldsText(mem: Memory, a: int, text: seq<byte>) { ReadInto(mem, a, |text|) == Some(text) }

  function StillThere(mem: Memory, text: seq<byte>, xs: seq<Match>): seq<Match> {
    if xs == [] then [] else
      (if HoldsText(mem, xs[0].address, text) then [xs[0]] else []) + StillThere(mem, text, xs[1..])
  }

  /** Filters the matches in place; once cancelled, the rest is kept as it is. An empty text keeps everything. */
  method NextScanStringJob(mem: Memory, matches: seq<Match>, text: seq<byte>, progress: Progress)
    returns (kept: seq<Match>)
    modifies progress
    ensures text == [] ==> kept == matches
    ensures exists k :: (0 <= k <= |matches| && (!progress.cancelled && text != [] ==> k == |matches|)
                         && kept == StillThere(mem, text, matches[..k]) + matches[k..])
  {
    kept := [];
    if text == [] {
      assert matches[..0] == [] && matches[0..] == matches;
      assert matches == StillThere(mem, text, matches[..0]) + matches[0..];
      return matches;
    }
    hide HoldsText;
    var k := 0;
    while k < |matches|
      invariant 0 <= k <= |matches|
      invariant kept == StillThere(mem, text, matches[..k])
    {
      var stop := progress.Poll();
      if stop {
        kept := kept + matches[k..];
        return;
      }
      if HoldsText(mem, matches[k].address, text) {
        kept := kept + [matches[k]];
      } else {
        assert kept + [] == kept;
      }
      StillThereSnoc(mem, text, matches[..k], matches[k]);
      assert matches[..k + 1] == matches[..k] + [matches[k]];
      k := k + 1;
    }
    assert matches[k..] == [] && kept + [] == kept;
    progress.done, progress.matches := |matches|, |kept|;
  }

  lemma {:induction false} StillThereSnoc(mem: Memory, text: seq<byte>, xs: seq<Match>, x: Match)
    ensures StillThere(mem, text, xs + [x])
            == StillThere(mem, text, xs) + if HoldsText(mem, x.address, text) then [x] else []
  {
    hide HoldsText;
    if xs == [] {
      assert [] + [x] == [x] && [x][1..] == [];
    } else {
      assert (xs + [x])[0] == xs[0] && (xs + [x])[1..] == xs[1..] + [x];
      StillThereSnoc(mem, text, xs[1..], x);
    }
  }

  // ----- Histories -----

  function RunText(text: seq<byte>, xs: seq<Match>, mems: seq<Memory>): seq<Match>
    decreases |mems|
  {
    if mems == [] then xs else RunText(text, StillThere(mems[0], text, xs), mems[1..])
  }

  ghost predicate AlwaysThere(mems: seq<Memory>, text: seq<byte>, a: int) {
    forall k :: 0 <= k < |mems| ==> HoldsText(mems[k], a, text)
  }

  ghost function AlwaysThereOf(mems: seq<Memory>, text: seq<byte>, xs: seq<Match>): seq<Match> {
    if xs == [] then [] else
    (if AlwaysThere(mems, text, xs[0].address) then [xs[0]] else []) + AlwaysThereOf(mems, text, xs[1..])
  }

  /** Any number of next scans leaves exactly the matches that held the text every time, in order. */
  lemma {:induction false} RunTextKeepsExactlyThose(text: seq<byte>, xs: seq<Match>, mems: seq<Memory>)
    ensures RunText(text, xs, mems) == AlwaysThereOf(mems, text, xs)
    decreases |mems|
  {
    if mems == [] {
      NothingLost(text, xs);
    } else {
      RunTextKeepsExactlyThose(text, StillThere(mems[0], text, xs), mems[1..]);
      OneMoreScan(mems, text, xs);
    }
  }

  lemma {:induction false} NothingLost(text: seq<byte>, xs: seq<Match>)
    ensures AlwaysThereOf([], text, xs) == xs
  {
    if xs != [] {
      NothingLost(text, xs[1..]);
      assert xs == [xs[0]] + xs[1..];
    }
  }

  lemma {:induction false} OneMoreScan(mems: seq<Memory>, text: seq<byte>, xs: seq<Match>)
    requires mems != []
    ensures AlwaysThereOf(mems, text, xs) == AlwaysThereOf(mems[1..], text, StillThere(mems[0], text, xs))
  {
    hide HoldsText;
    if xs != [] {
      var a, rest := xs[0].address, StillThere(mems[0], text, xs[1..]);
      OneMoreScan(mems, text, xs[1..]);
      FirstAndRest(mems, text, a);
      assert ([xs[0]] + rest)[1..] == rest && [] + rest == rest;
      assert [] + AlwaysThereOf(mems, text, xs[1..]) == AlwaysThereOf(mems, text, xs[1..]);
    }
  }

  lemma FirstAndRest(mems: seq<Memory>, text: seq<byte>, a: int)
    requires mems != []
    ensures AlwaysThere(mems, text, a) <==> HoldsText(mems[0], a, text) && AlwaysThere(mems[1..], text, a)
  {
    hide HoldsText;
    if HoldsText(mems[0], a, text) && AlwaysThere(mems[1..], text, a) {
      forall k | 0 <= k < |mems| ensures HoldsText(mems[k], a, text) {
        assert k > 0 ==> mems[1..][k - 1] == mems[k];
      }
    }
  }
}
