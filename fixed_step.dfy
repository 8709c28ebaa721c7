/**
  The fixed logical clock shared by both versions of the tree:
    cacheTime += delta;
    while (cacheTime > fps) { <one logical step>; cacheTime -= fps; }
  Time is counted in integer units; `fps` is the positive length of one step.
*/
module FixedStep {

  /** How many times the loop body runs when the accumulator holds `acc`. */
  function Steps(acc: nat, fps: nat): (n: nat)
    requires fps > 0
    ensures n == 0 <==> acc <= fps
    decreases acc
  {
    if acc > fps then 1 + Steps(acc - fps, fps) else 0
  }

  /** What is left in the accumulator after the loop. */
  function Residue(acc: nat, fps: nat): (r: nat)
    requires fps > 0
    ensures r <= fps && r <= acc
    ensures acc > 0 ==> r > 0          // a positive accumulator is never drained to 0
    decreases acc
  {
    if acc > fps then Residue(acc - fps, fps) else acc
  }

  /**
    No time is dropped: the residue plus one interval per step is the
    accumulator, and every step ran while more than one interval was left.
  */
  lemma {:induction false} StepsAccount(acc: nat, fps: nat)
    requires fps > 0
    ensures Residue(acc, fps) + Steps(acc, fps) * fps == acc
    ensures Steps(acc, fps) > 0 ==> acc - (Steps(acc, fps) - 1) * fps > fps
    decreases acc
  {
    if acc > fps {
      StepsAccount(acc - fps, fps);
      var n := Steps(acc - fps, fps);
      assert (n + 1) * fps == n * fps + fps;
      if n > 0 {
        assert n * fps == (n - 1) * fps + fps;
      }
    }
  }

  /**
    Splitting a delta over two calls runs exactly as many steps as one call with
    the sum, and leaves the same residue: the clock does not depend on how often
    the driver is called.
  */
  lemma {:induction false} StepsSplit(acc: nat, d1: nat, d2: nat, fps: nat)
    requires fps > 0
    ensures Steps(acc + d1, fps) + Steps(Residue(acc + d1, fps) + d2, fps) == Steps(acc + d1 + d2, fps)
    ensures Residue(Residue(acc + d1, fps) + d2, fps) == Residue(acc + d1 + d2, fps)
    decreases acc + d1
  {
    if acc + d1 > fps {
      StepsSplit(acc + d1 - fps, 0, d2, fps);
    }
  }
}
