/** Motion scoring of the packaged camera (src/meisencam/motion.py): the
    percentage of compare-size pixels whose grey value moved by more than a
    noise floor, and the policy deciding when the stored reference frame is
    replaced by the current one.

    Frames enter the model already decoded to luma, resized to the compare
    size and blurred; both frames of one comparison therefore have the same
    length, width * height of the compare size. */
module Motion {
  import opened Common

  /** The tunables the scorer reads from the configuration module. */
  datatype MotionConfig = MotionConfig(
    compareWidth: nat,
    compareHeight: nat,
    pixelThreshold: int,
    motionThreshold: real,
    refMaxAge: real)
  {
    predicate Valid() {
      compareWidth > 0 && compareHeight > 0
    }
  }

  /** A grey frame at the configured compare size. */
  predicate IsFrame(cfg: MotionConfig, s: seq<int>) {
    |s| == cfg.compareWidth * cfg.compareHeight && IsGrey(s)
  }

  /** A pixel pair counts as changed only when it moved strictly more than the noise floor. */
  predicate Changed(pn: int, po: int, pixelThreshold: int) {
    AbsDiff(pn, po) > pixelThreshold
  }

  /** Number of positions at which the two frames differ by more than the threshold. */
  function ChangedCount(cur: seq<int>, ref: seq<int>, pixelThreshold: int): (n: nat)
    requires |cur| == |ref|
    ensures n <= |cur|
    decreases |cur|
  {
    if |cur| == 0 then 0
    else
      var k := |cur| - 1;
      ChangedCount(cur[..k], ref[..k], pixelThreshold)
        + (if Changed(cur[k], ref[k], pixelThreshold) then 1 else 0)
  }

  /** Independent description of the count: the set of changed positions. */
  ghost function ChangedPixels(cur: seq<int>, ref: seq<int>, pixelThreshold: int): set<int>
    requires |cur| == |ref|
  {
    set i | 0 <= i < |cur| && Changed(cur[i], ref[i], pixelThreshold)
  }

  /** The motion score: changed pixels as a percentage of all compared pixels. */
  function Score(cur: seq<int>, ref: seq<int>, pixelThreshold: int): (s: real)
    requires |cur| == |ref| > 0
    ensures 0.0 <= s <= 100.0
    ensures s == 0.0 <==> ChangedCount(cur, ref, pixelThreshold) == 0
    ensures s == 100.0 <==> ChangedCount(cur, ref, pixelThreshold) == |cur|
  {
    var c := ChangedCount(cur, ref, pixelThreshold);
    PercentageBounds(c, |cur|);
    (c as real / |cur| as real) * 100.0
  }

  lemma PercentageBounds(c: nat, n: nat)
    requires 0 < n && c <= n
    ensures 0.0 <= (c as real / n as real) * 100.0 <= 100.0
    ensures (c as real / n as real) * 100.0 == 0.0 <==> c == 0
    ensures (c as real / n as real) * 100.0 == 100.0 <==> c == n
  {
    var q := c as real / n as real;
    assert q * n as real == c as real;
    assert q >= 0.0;
    if c == 0 { assert q == 0.0; } else { assert q > 0.0; }
    if c == n { assert q == 1.0; } else { assert q * n as real < n as real; assert q < 1.0; }
  }

  /** The counting function agrees with the cardinality of the set of changed positions. */
  lemma {:induction false} ChangedCountIsCardinality(cur: seq<int>, ref: seq<int>, t: int)
    requires |cur| == |ref|
    ensures ChangedCount(cur, ref, t) == |ChangedPixels(cur, ref, t)|
    decreases |cur|
  {
    if |cur| > 0 {
      var k := |cur| - 1;
      ChangedCountIsCardinality(cur[..k], ref[..k], t);
      var prev := ChangedPixels(cur[..k], ref[..k], t);
      if Changed(cur[k], ref[k], t) {
        assert ChangedPixels(cur, ref, t) == prev + {k};
      } else {
        assert ChangedPixels(cur, ref, t) == prev;
      }
    }
  }

  /** No pixel is counted exactly when every difference is within the noise floor. */
  lemma {:induction false} ChangedCountZeroIff(cur: seq<int>, ref: seq<int>, t: int)
    requires |cur| == |ref|
    ensures ChangedCount(cur, ref, t) == 0
        <==> forall i :: 0 <= i < |cur| ==> !Changed(cur[i], ref[i], t)
    decreases |cur|
  {
    if |cur| > 0 {
      var k := |cur| - 1;
      ChangedCountZeroIff(cur[..k], ref[..k], t);
      assert forall i :: 0 <= i < k ==> cur[..k][i] == cur[i] && ref[..k][i] == ref[i];
    }
  }

  /** Every pixel is counted exactly when every difference exceeds the noise floor. */
  lemma {:induction false} ChangedCountFullIff(cur: seq<int>, ref: seq<int>, t: int)
    requires |cur| == |ref|
    ensures ChangedCount(cur, ref, t) == |cur|
        <==> forall i :: 0 <= i < |cur| ==> Changed(cur[i], ref[i], t)
    decreases |cur|
  {
    if |cur| > 0 {
      var k := |cur| - 1;
      ChangedCountFullIff(cur[..k], ref[..k], t);
      assert forall i :: 0 <= i < k ==> cur[..k][i] == cur[i] && ref[..k][i] == ref[i];
    }
  }

  lemma {:induction false} ChangedCountSymmetric(a: seq<int>, b: seq<int>, t: int)
    requires |a| == |b|
    ensures ChangedCount(a, b, t) == ChangedCount(b, a, t)
    decreases |a|
  {
    if |a| > 0 {
      var k := |a| - 1;
      ChangedCountSymmetric(a[..k], b[..k], t);
    }
  }

  /** The score is 0 exactly when no pixel moved by more than the noise floor,
      however large the differences below it are. */
  lemma ScoreZeroIff(cur: seq<int>, ref: seq<int>, t: int)
    requires |cur| == |ref| > 0
    ensures Score(cur, ref, t) == 0.0
        <==> forall i :: 0 <= i < |cur| ==> AbsDiff(cur[i], ref[i]) <= t
  {
    ChangedCountZeroIff(cur, ref, t);
  }

  /** The score is 100 exactly when every pixel moved by more than the noise floor. */
  lemma ScoreHundredIff(cur: seq<int>, ref: seq<int>, t: int)
    requires |cur| == |ref| > 0
    ensures Score(cur, ref, t) == 100.0
        <==> forall i :: 0 <= i < |cur| ==> AbsDiff(cur[i], ref[i]) > t
  {
    ChangedCountFullIff(cur, ref, t);
  }

  /** Comparing a frame with itself scores 0 for any non-negative noise floor. */
  lemma IdenticalScoresZero(img: seq<int>, t: int)
    requires |img| > 0 && t >= 0
    ensures Score(img, img, t) == 0.0
  {
    ScoreZeroIff(img, img, t);
  }

  /** Which of the two frames is the reference does not matter. */
  lemma ScoreSymmetric(a: seq<int>, b: seq<int>, t: int)
    requires |a| == |b| > 0
    ensures Score(a, b, t) == Score(b, a, t)
  {
    ChangedCountSymmetric(a, b, t);
  }

  function Solid(n: nat, colour: int): (s: seq<int>)
    ensures |s| == n && forall i :: 0 <= i < n ==> s[i] == colour
  {
    seq(n, _ => colour)
  }

  /** Two solid frames score 100 when their colours are further apart than the
      noise floor and 0 otherwise (for example 200 against 100 with floor 15
      gives 100, 105 against 100 gives 0). */
  lemma SolidFramesScore(n: nat, c1: int, c2: int, t: int)
    requires n > 0
    ensures Score(Solid(n, c1), Solid(n, c2), t)
         == if AbsDiff(c1, c2) > t then 100.0 else 0.0
  {
    var a, b := Solid(n, c1), Solid(n, c2);
    if AbsDiff(c1, c2) > t {
      ScoreHundredIff(a, b, t);
    } else {
      ScoreZeroIff(a, b, t);
    }
  }

  /** Age of the reference; an update time of 0 means "never set" and gives age 0. */
  function RefAge(refUpdateTime: real, now: real): real {
    if refUpdateTime > 0.0 then now - refUpdateTime else 0.0
  }

  predicate RefExpired(cfg: MotionConfig, refUpdateTime: real, now: real) {
    refUpdateTime > 0.0 && RefAge(refUpdateTime, now) > cfg.refMaxAge
  }

  /** The reference is replaced on motion, on staleness, or while no update
      time is recorded: a quiet frame keeps a reference whose recorded update
      time is at most the maximum age old, and only such a frame does. */
  function RefreshDue(cfg: MotionConfig, score: real, refUpdateTime: real, now: real): (due: bool)
    ensures score > cfg.motionThreshold ==> due
    ensures refUpdateTime == 0.0 ==> due
    ensures refUpdateTime > 0.0 && score <= cfg.motionThreshold
      ==> (due <==> now - refUpdateTime > cfg.refMaxAge)
    ensures refUpdateTime < 0.0 ==> (due <==> score > cfg.motionThreshold)
  {
    score > cfg.motionThreshold || RefExpired(cfg, refUpdateTime, now) || refUpdateTime == 0.0
  }

  /** Once due, a refresh stays due as the clock advances. */
  lemma RefreshStaysDue(cfg: MotionConfig, score: real, refUpdateTime: real, now: real, later: real)
    requires now <= later && RefreshDue(cfg, score, refUpdateTime, now)
    ensures RefreshDue(cfg, score, refUpdateTime, later)
  {
  }

  /** The scorer's state: the reference file and the time it was last written.
      The current frame is passed in by value and is only ever copied from. */
  class MotionDetector {
    const cfg: MotionConfig
    var reference: Option<seq<int>>
    var refUpdateTime: real

    ghost predicate Valid()
      reads this
    {
      cfg.Valid() && (reference.Some? ==> IsFrame(cfg, reference.value))
    }

    /** Module load: the update time starts at 0, the reference is whatever is on disk. */
    constructor (cfg: MotionConfig, onDisk: Option<seq<int>>)
      requires cfg.Valid()
      requires onDisk.Some? ==> IsFrame(cfg, onDisk.value)
      ensures Valid()
      ensures this.cfg == cfg && reference == onDisk && refUpdateTime == 0.0
    {
      this.cfg := cfg;
      reference := onDisk;
      refUpdateTime := 0.0;
    }

    /** One comparison of the current frame against the reference, at clock time `now`. */
    method DetectMotion(current: Option<seq<int>>, now: real) returns (r: Result<real>)
      requires Valid()
      requires current.Some? ==> IsFrame(cfg, current.value)
      modifies this
      ensures Valid()
      ensures r.Ok? ==> 0.0 <= r.value <= 100.0
      // A missing current file makes the copy fail before anything is written.
      ensures current.None? ==>
        r == Err(FileNotFound) && reference == old(reference) && refUpdateTime == old(refUpdateTime)
      // A missing reference is initialised from the current frame.
      ensures current.Some? && old(reference).None? ==>
        r == Ok(0.0) && reference == current && refUpdateTime == now
      ensures current.Some? && old(reference).Some? ==>
        r == Ok(Score(current.value, old(reference).value, cfg.pixelThreshold))
      ensures current.Some? && old(reference).Some? ==>
        if RefreshDue(cfg, r.value, old(refUpdateTime), now)
        then reference == current && refUpdateTime == now
        else reference == old(reference) && refUpdateTime == old(refUpdateTime)
    {
      if current.None? {
        return Err(FileNotFound);
      }
      if reference.None? {
        reference := current;
        refUpdateTime := now;
        return Ok(0.0);
      }
      var score := Score(current.value, reference.value, cfg.pixelThreshold);
      var motionDetected := score > cfg.motionThreshold;
      var refExpired := RefExpired(cfg, refUpdateTime, now);
      if motionDetected || refExpired || refUpdateTime == 0.0 {
        reference := current;
        refUpdateTime := now;
      }
      r := Ok(score);
    }
  }
}
