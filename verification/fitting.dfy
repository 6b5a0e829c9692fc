/** `find_fitting_size` of src/ui/font.rs: a binary search for the largest
    point size whose wrapped rendering fits a box's height. Loading the font
    and rendering at a trial size become the parameter `heightAt`, which
    yields the wrapped height at a point size or the backend's error. */
module Fitting {
  import opened Wrappers

  /** The wrapped text at point size `pt` is no taller than the box. */
  predicate Fits(heightAt: nat -> Result<nat>, boxHeight: nat, pt: nat) {
    heightAt(pt).Ok? && heightAt(pt).value <= boxHeight
  }

  /** Fitting is downward-closed on `[lo, hi]`: a smaller size fits whenever a
      larger one does. */
  ghost predicate DownwardClosed(heightAt: nat -> Result<nat>, boxHeight: nat, lo: nat, hi: nat) {
    forall a: nat, b: nat :: lo <= a <= b <= hi && Fits(heightAt, boxHeight, b) ==> Fits(heightAt, boxHeight, a)
  }

  /** The backend succeeds at every size of `[lo, hi]`. */
  ghost predicate NeverFails(heightAt: nat -> Result<nat>, lo: nat, hi: nat) {
    forall p: nat :: lo <= p <= hi ==> heightAt(p).Ok?
  }

  /** Under downward closure, a size that does not fit rules out every larger one. */
  lemma TooTallAbove(heightAt: nat -> Result<nat>, boxHeight: nat, minPt: nat, maxPt: nat, pt: nat)
    requires minPt <= pt && !Fits(heightAt, boxHeight, pt)
    ensures DownwardClosed(heightAt, boxHeight, minPt, maxPt) ==>
              forall p: nat :: pt <= p <= maxPt ==> !Fits(heightAt, boxHeight, p)
  {
  }

  /** Binary search over `[minPt, maxPt]`. The best size starts at `minPt`
      and becomes every probed size that fits; a size that does not fit
      lowers the upper bound, except that the search stops at size 0 rather
      than go below it. A backend error ends the search with that error. */
  method FindFittingSize(minPt: nat, maxPt: nat, boxHeight: nat, heightAt: nat -> Result<nat>)
    returns (r: Result<nat>)
    ensures r.Ok? ==> minPt <= r.value && (r.value == minPt || (r.value <= maxPt && Fits(heightAt, boxHeight, r.value)))
    ensures r.Ok? && DownwardClosed(heightAt, boxHeight, minPt, maxPt) ==>
              forall p: nat :: r.value < p <= maxPt ==> !Fits(heightAt, boxHeight, p)
    ensures r.Err? ==> exists p: nat :: minPt <= p <= maxPt && heightAt(p).Err?
    ensures NeverFails(heightAt, minPt, maxPt) ==> r.Ok?
  {
    var low: int := minPt;
    var high: int := maxPt;
    var best: nat := minPt;
    while low <= high
      invariant minPt <= low && high <= maxPt && minPt <= best
      invariant (best == minPt && low == minPt) || (best == low - 1 && best <= maxPt && Fits(heightAt, boxHeight, best))
      invariant DownwardClosed(heightAt, boxHeight, minPt, maxPt) ==>
                  forall p: nat :: high < p <= maxPt ==> !Fits(heightAt, boxHeight, p)
      decreases high - low
    {
      var mid: nat := (low + high) / 2;
      var trial := heightAt(mid);
      if trial.Err? {
        return Err(trial.error);
      }
      if trial.value <= boxHeight {
        best := mid;
        low := mid + 1;
      } else {
        TooTallAbove(heightAt, boxHeight, minPt, maxPt, mid);
        if mid == 0 {
          // Every size from 0 up is too tall.
          return Ok(best);
        }
        high := mid - 1;
      }
    }
    r := Ok(best);
  }
}
