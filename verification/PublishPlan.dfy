/** The publish order as the publisher's plan, and what the two together promise. */
module PublishPlan {
  import opened Wrappers
  import PO = PublishOrder
  import P = Publisher

  const CORE := "gwz-core"

  /** `Publisher.plan`: the gate, the printed order and the manifests' versions must all be there. */
  function MakePlan(gateExit: int, orderExit: int, names: seq<string>, versions: map<string, string>)
    : Result<seq<P.Crate>, P.Failure>
  {
    if gateExit != 0 || orderExit != 0 || names == [] || names[|names| - 1] != CORE
       || exists i | 0 <= i < |names| :: names[i] !in versions
    then Err(P.NoPlan)
    else Ok(seq(|names|, i requires 0 <= i < |names| && names[i] in versions => P.Crate(names[i], versions[names[i]])))
  }

  /** The planned version of every crate in `needs` has answered as published. */
  ghost predicate AllSeen(needs: set<string>, versions: map<string, string>, run: seq<P.Event>) {
    forall n | n in needs :: n in versions && P.Probed(P.Crate(n, versions[n]), P.PUBLISHED) in run
  }

  /**
   Whenever `cargo publish` starts for a crate, in a run that may be stopped anywhere,
   the planned version of every published crate it needs has already answered 200 in that run.
   */
  lemma NeedsSeenFirst(core: PO.Manifest, crates: seq<PO.Manifest>, order: Result<seq<string>, string>,
                       versions: map<string, string>, plan: seq<P.Crate>, run: seq<P.Event>, stop: nat, i: nat)
    requires PO.Answers(core, PO.GraphOf(crates), order) && order.Ok?
    requires MakePlan(0, 0, order.value, versions) == Ok(plan)
    requires P.Disciplined(plan, run) && i < stop <= |run| && run[..stop][i].PublishStarted?
    ensures var crate, g := run[i].crate.name, PO.GraphOf(crates);
            && (crate in g ==> AllSeen(g[crate], versions, run[..i]))
            && (crate !in g ==> crate == core.name && AllSeen(PO.Needs(core, PO.Published(crates)), versions, run[..i]))
  {
    assert run[..stop][i] == run[i];
    assert P.Allowed(plan, run, i);
    var g := PO.GraphOf(crates);
    var p :| 0 <= p < |plan| && plan[p] == run[i].crate && P.Seen(plan[..p], run[..i]);
    PO.NeedsComeFirst(core, crates, order, p);
    assert plan[p].name == order.value[p];
    PlanSeen(order.value, versions, plan, p, run[..i]);
    PO.GraphClosed(crates, PO.Published(crates));
    if p == |plan| - 1 {
      assert PO.Elements(order.value[..p]) == g.Keys;
    }
  }

  lemma PlanSeen(names: seq<string>, versions: map<string, string>, plan: seq<P.Crate>, p: nat, run: seq<P.Event>)
    requires MakePlan(0, 0, names, versions) == Ok(plan) && p <= |plan| && P.Seen(plan[..p], run)
    ensures AllSeen(PO.Elements(names[..p]), versions, run)
  {
    forall n | n in PO.Elements(names[..p])
      ensures n in versions && P.Probed(P.Crate(n, versions[n]), P.PUBLISHED) in run
    {
      var q :| 0 <= q < p && names[q] == n;
      assert plan[q] in plan[..p] && plan[q].name == n;
    }
  }
}
