/**
 * The dialogue gate of the call-analytics pipeline: a single forward pass over a
 * speech/silence frame mask counts speaker turns, and the gate decides from that count
 * whether the recording holds a dialogue (deleting the recording when it does not and the
 * gate is configured to do so).
 *
 * The frame mask (short-time RMS energy above half its mean) and the number of frames that
 * make up the minimum silence gap are computed by floating-point library code upstream; here
 * both are inputs.
 */
module DialogueDetection {

  /** Length of the maximal run of silence frames at the end of `mask`. */
  function TrailingSilence(mask: seq<bool>): (r: nat)
    ensures r <= |mask|
    ensures forall k :: |mask| - r <= k < |mask| ==> !mask[k]
    ensures r < |mask| ==> mask[|mask| - 1 - r]
  {
    if mask == [] || mask[|mask| - 1] then 0 else TrailingSilence(mask[..|mask| - 1]) + 1
  }

  /**
   * Frame `i` is a counted turn: it is speech, it begins a speech run (it is the first frame
   * or the frame before it is silence), and the silence run just before it is at least
   * `minSilenceFrames` frames long.
   */
  predicate TurnAt(mask: seq<bool>, i: nat, minSilenceFrames: nat): (r: bool)
    requires i < |mask|
    ensures r ==> mask[i] && i >= minSilenceFrames
    ensures r ==> forall k :: i - minSilenceFrames <= k < i ==> !mask[k]
  {
    mask[i] && (i == 0 || !mask[i - 1]) && TrailingSilence(mask[..i]) >= minSilenceFrames
  }

  /** Reference definition: the number of frames of `mask` that are counted turns. */
  function Turns(mask: seq<bool>, minSilenceFrames: nat): (r: nat)
    ensures r <= |mask|
  {
    if mask == [] then 0
    else Turns(mask[..|mask| - 1], minSilenceFrames) + (if TurnAt(mask, |mask| - 1, minSilenceFrames) then 1 else 0)
  }

  /** `k` silence frames. */
  function Silence(k: nat): (r: seq<bool>)
    ensures |r| == k && forall j :: 0 <= j < k ==> !r[j]
  {
    seq(k, _ => false)
  }

  function Min(a: nat, b: nat): nat { if a <= b then a else b }

  /**
   * The turn-counting loop of the detector: `turnCount`, `silenceCount` and `inSpeech` are the
   * three state variables of the source. After each frame, `silenceCount` is the length of
   * the silence run ending at that frame and `inSpeech` is that frame's flag.
   */
  method DetectSpeechSegments(isSpeech: seq<bool>, minSilenceFrames: nat) returns (turnCount: nat)
    ensures turnCount == Turns(isSpeech, minSilenceFrames)
  {
    turnCount := 0;
    var silenceCount: nat := 0;
    var inSpeech := false;
    for i := 0 to |isSpeech|
      invariant silenceCount == TrailingSilence(isSpeech[..i])
      invariant inSpeech == (i > 0 && isSpeech[i - 1])
      invariant turnCount == Turns(isSpeech[..i], minSilenceFrames)
    {
      assert isSpeech[..i + 1][..i] == isSpeech[..i];
      if isSpeech[i] {
        if !inSpeech && silenceCount >= minSilenceFrames {
          turnCount := turnCount + 1;
        }
        inSpeech := true;
        silenceCount := 0;
      } else {
        if inSpeech {
          silenceCount := 1;
          inSpeech := false;
        } else {
          silenceCount := silenceCount + 1;
        }
      }
    }
    assert isSpeech[..|isSpeech|] == isSpeech;
  }

  /** Whether frame `i` is a turn depends only on the frames up to and including `i`. */
  lemma TurnAtPrefix(mask: seq<bool>, j: nat, i: nat, m: nat)
    requires i < j <= |mask|
    ensures TurnAt(mask[..j], i, m) == TurnAt(mask, i, m)
  {
    assert mask[..j][..i] == mask[..i];
  }

  /**
   * The count grows by exactly one at a frame that is a turn and stays put at every other
   * frame; in particular it never decreases.
   */
  lemma TurnStep(mask: seq<bool>, i: nat, m: nat)
    requires i < |mask|
    ensures Turns(mask[..i + 1], m) == Turns(mask[..i], m) + (if TurnAt(mask, i, m) then 1 else 0)
  {
    assert mask[..i + 1][..i] == mask[..i];
    TurnAtPrefix(mask, i + 1, i, m);
  }

  lemma {:induction false} TurnsNeverDecrease(mask: seq<bool>, i: nat, j: nat, m: nat)
    requires i <= j <= |mask|
    ensures Turns(mask[..i], m) <= Turns(mask[..j], m)
    decreases j - i
  {
    if i < j {
      TurnStep(mask, j - 1, m);
      TurnsNeverDecrease(mask, i, j - 1, m);
    }
  }

  /**
   * Budget behind the counting bound: every counted turn pays for one speech frame and a
   * disjoint silence run of `m` frames before it, and the silence run still open at the end
   * is credited up to `m` frames.
   */
  lemma {:induction false} TurnBudget(mask: seq<bool>, m: nat)
    ensures Turns(mask, m) * (m + 1) + Min(TrailingSilence(mask), m) <= |mask|
  {
    if mask != [] {
      var front := mask[..|mask| - 1];
      TurnBudget(front, m);
      var t := Turns(front, m);
      if TurnAt(mask, |mask| - 1, m) {
        assert mask[..|mask| - 1] == front;
        assert Min(TrailingSilence(front), m) == m;
        assert Turns(mask, m) == t + 1 && TrailingSilence(mask) == 0;
        NextMultiple(t, m + 1);
      } else {
        assert Turns(mask, m) == t;
      }
    }
  }

  /** Multiplication distributes over the successor; kept apart to keep `TurnBudget` linear. */
  lemma NextMultiple(t: nat, w: nat)
    ensures (t + 1) * w == t * w + w
  {
  }

  /** Each counted turn uses `minSilenceFrames + 1` frames of the mask. */
  lemma TurnBound(mask: seq<bool>, m: nat)
    ensures Turns(mask, m) * (m + 1) <= |mask|
  {
    TurnBudget(mask, m);
  }

  /** Silence frames never add a turn. */
  lemma {:induction false} SilenceAddsNoTurn(p: seq<bool>, k: nat, m: nat)
    ensures Turns(p + Silence(k), m) == Turns(p, m)
    ensures (p == [] || p[|p| - 1]) ==> TrailingSilence(p + Silence(k)) == k
  {
    if k > 0 {
      var q := p + Silence(k);
      assert q[..|q| - 1] == p + Silence(k - 1);
      SilenceAddsNoTurn(p, k - 1, m);
    } else {
      assert p + Silence(0) == p;
    }
  }

  /**
   * A speech frame after a silence run of `k` frames adds a turn exactly when `k` reaches the
   * minimum, provided the run is a whole run: it starts the mask, or it follows speech and is
   * not empty.
   */
  lemma SilenceThenSpeech(p: seq<bool>, k: nat, m: nat)
    requires p == [] || (p[|p| - 1] && k > 0)
    ensures Turns(p + Silence(k) + [true], m) == Turns(p, m) + (if k >= m then 1 else 0)
  {
    var q := p + Silence(k);
    var s := q + [true];
    SilenceAddsNoTurn(p, k, m);
    assert s[..|s| - 1] == q;
    assert TurnAt(s, |s| - 1, m) == (k >= m);
  }

  /**
   * The threshold edge: a silence gap one frame short of the minimum followed by speech adds
   * no turn; a gap of exactly the minimum adds one.
   */
  lemma ThresholdEdge(p: seq<bool>, m: nat)
    requires m >= 1
    requires p != [] && p[|p| - 1]
    ensures Turns(p + Silence(m - 1) + [true], m) == Turns(p, m)
    ensures Turns(p + Silence(m) + [true], m) == Turns(p, m) + 1
  {
    SilenceThenSpeech(p, m, m);
    if m > 1 {
      SilenceThenSpeech(p, m - 1, m);
    } else {
      var s := p + Silence(0) + [true];
      assert s[..|s| - 1] == p;
      assert !TurnAt(s, |s| - 1, m);
    }
  }

  /**
   * From the start state (not in speech, no silence counted) the first speech frame is a turn
   * only when the leading silence, possibly empty, reaches the minimum.
   */
  lemma FirstSpeech(k: nat, m: nat)
    ensures Turns(Silence(k) + [true], m) == (if k >= m then 1 else 0)
  {
    SilenceThenSpeech([], k, m);
    assert [] + Silence(k) == Silence(k);
  }

  /** A mask with no silence: only the first frame can count, and only when the minimum is 0. */
  lemma {:induction false} AllSpeech(mask: seq<bool>, m: nat)
    requires forall k :: 0 <= k < |mask| ==> mask[k]
    ensures Turns(mask, m) == (if m == 0 && mask != [] then 1 else 0)
  {
    if mask != [] {
      AllSpeech(mask[..|mask| - 1], m);
    }
  }

  /** A mask with no speech counts no turn. */
  lemma {:induction false} AllSilence(mask: seq<bool>, m: nat)
    requires forall k :: 0 <= k < |mask| ==> !mask[k]
    ensures Turns(mask, m) == 0
  {
    if mask != [] {
      AllSilence(mask[..|mask| - 1], m);
    }
  }

  /** The file system holding the recordings, as the set of paths that exist. */
  class AudioStore {
    var files: set<string>

    constructor (files: set<string>)
      ensures this.files == files
    {
      this.files := files;
    }

    /** Removes an existing file. */
    method Remove(path: string)
      requires path in files
      modifies this
      ensures files == old(files) - {path}
    {
      files := files - {path};
    }
  }

  /** The dialogue gate: thresholds and the policy applied when no dialogue is found. */
  class DialogueDetecting {
    const deleteOriginal: bool
    const skipIfNoDialogue: bool
    const minSilenceFrames: nat
    const minTurnCount: int

    constructor (deleteOriginal: bool, skipIfNoDialogue: bool, minSilenceFrames: nat, minTurnCount: int)
      ensures this.deleteOriginal == deleteOriginal && this.skipIfNoDialogue == skipIfNoDialogue
      ensures this.minSilenceFrames == minSilenceFrames && this.minTurnCount == minTurnCount
    {
      this.deleteOriginal := deleteOriginal;
      this.skipIfNoDialogue := skipIfNoDialogue;
      this.minSilenceFrames := minSilenceFrames;
      this.minTurnCount := minTurnCount;
    }

    /**
     * Decides whether `audioFile`, whose speech/silence frame mask is `isSpeech`, holds a
     * dialogue. The answer does not depend on `skipIfNoDialogue`; the file is removed exactly
     * when there is no dialogue and `deleteOriginal` is set.
     */
    method Process(audioFile: string, isSpeech: seq<bool>, store: AudioStore) returns (hasDialogue: bool)
      requires audioFile in store.files
      modifies store
      ensures hasDialogue <==> Turns(isSpeech, minSilenceFrames) >= minTurnCount
      ensures store.files == if !hasDialogue && deleteOriginal then old(store.files) - {audioFile} else old(store.files)
    {
      var turnCount := DetectSpeechSegments(isSpeech, minSilenceFrames);
      hasDialogue := turnCount >= minTurnCount;
      if !hasDialogue {
        if deleteOriginal {
          store.Remove(audioFile);
        }
        if skipIfNoDialogue {
          return false;
        }
      }
    }
  }
}
