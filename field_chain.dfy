/** JavaScript's `||` on strings read from a page or a JSON payload: an
    absent value (`undefined`) and the empty string are both falsy, so
    `a || b || ''` yields the first non-empty candidate. */
module FieldChain {
  import opened Optional

  /** The candidate is present and not the empty string */
  predicate Truthy(o: Option<string>) {
    o.Some? && o.value != ""
  }

  /** `x || ''` */
  function OrEmpty(o: Option<string>): (r: string)
    ensures r != "" <==> Truthy(o)
    ensures Truthy(o) ==> r == o.value
  {
    if Truthy(o) then o.value else ""
  }

  /** `x || undefined` (and `x || null`): an empty string becomes absent */
  function NonEmpty(o: Option<string>): (r: Option<string>)
    ensures r.Some? <==> Truthy(o)
    ensures r.Some? ==> r == o
  {
    if Truthy(o) then o else None
  }

  /** `c0 || c1 || ... || ''`: the first candidate that is present and
      non-empty, or the empty string when there is none */
  function FirstNonEmpty(cands: seq<Option<string>>): (r: string)
    ensures r == "" <==> forall i :: 0 <= i < |cands| ==> !Truthy(cands[i])
    ensures r != "" ==> exists i :: 0 <= i < |cands| && cands[i] == Some(r)
                                    && forall j :: 0 <= j < i ==> !Truthy(cands[j])
    decreases |cands|
  {
    if cands == [] then ""
    else if Truthy(cands[0]) then cands[0].value
    else
      var r := FirstNonEmpty(cands[1..]);
      assert forall i :: 1 <= i < |cands| ==> cands[i] == cands[1..][i - 1];
      if r != "" then
        var k :| 0 <= k < |cands[1..]| && cands[1..][k] == Some(r)
                 && forall j :: 0 <= j < k ==> !Truthy(cands[1..][j]);
        assert cands[k + 1] == Some(r);
        r
      else
        r
  }

  /** A later candidate is used only when every earlier one is falsy, and a
      truthy candidate shadows everything after it */
  lemma {:induction false} FirstNonEmptyPicksFirstTruthy(cands: seq<Option<string>>, k: nat)
    requires k < |cands| && Truthy(cands[k])
    requires forall j :: 0 <= j < k ==> !Truthy(cands[j])
    ensures FirstNonEmpty(cands) == cands[k].value
    decreases k
  {
    if k > 0 {
      assert forall j :: 0 <= j < k - 1 ==> cands[1..][j] == cands[j + 1];
      FirstNonEmptyPicksFirstTruthy(cands[1..], k - 1);
    }
  }
}
