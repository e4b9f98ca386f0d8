/** Ruling on a batch of announcements by would-be devices: controller/internal/enrollment.go. */
module Enrollment {

  datatype Announcement = Announcement(device: string, model: string, gateway: string, nodeID: int)

  datatype EnrollmentSpec = EnrollmentSpec(allowedModels: seq<string>, requireTemplate: string, autoApprove: bool)

  datatype Ruling =
    | Approved | Pending | AlreadyEnrolled
    | RejectDecommissioned | RejectUnknownModel | RejectNotInTemplate | RejectNodeIDTaken

  datatype Decision = Decision(announcement: Announcement, ruling: Ruling)

  datatype Fleet = Fleet(existing: set<string>, decommissioned: set<string>, templateInstances: set<string>)

  /** Names a place on a gateway; an empty gateway or node zero names none. */
  predicate Claims(a: Announcement) {
    a.gateway != "" && a.nodeID != 0
  }

  /** "gateway/node" as a key. Decimal digits hold no slash, so the printed key determines the pair. */
  type Place = (string, int)

  function PlaceOf(a: Announcement): (p: Place) {
    (a.gateway, a.nodeID)
  }

  /** Which device holds each place after a list of announcements. */
  function Holders(an: seq<Announcement>): (seen: map<Place, string>) {
    if an == [] then map[] else
      var seen, a := Holders(an[..|an| - 1]), an[|an| - 1];
      if !Claims(a) || (PlaceOf(a) in seen && seen[PlaceOf(a)] != a.device) then seen
      else seen[PlaceOf(a) := a.device]
  }

  function Rule(spec: EnrollmentSpec, fleet: Fleet, seen: map<Place, string>, a: Announcement): (r: Ruling) {
    if a.device in fleet.decommissioned then RejectDecommissioned
    else if a.device in fleet.existing then AlreadyEnrolled
    else if spec.allowedModels != [] && a.model !in spec.allowedModels then RejectUnknownModel
    else if spec.requireTemplate != "" && a.device !in fleet.templateInstances then RejectNotInTemplate
    else if Claims(a) && !(PlaceOf(a) in seen && seen[PlaceOf(a)] == a.device) then RejectNodeIDTaken
    else if spec.autoApprove then Approved
    else Pending
  }

  function Decisions(spec: EnrollmentSpec, fleet: Fleet, seen: map<Place, string>, an: seq<Announcement>)
    : (ds: seq<Decision>)
  {
    if an == [] then [] else
      var a := an[|an| - 1];
      var r := Rule(spec, fleet, seen, a);
      Decisions(spec, fleet, seen, an[..|an| - 1]) + if r.AlreadyEnrolled? then [] else [Decision(a, r)]
  }

  method AssessEnrollment(spec: EnrollmentSpec, fleet: Fleet, an: seq<Announcement>) returns (ds: seq<Decision>)
    ensures ds == Decisions(spec, fleet, Holders(an), an)
  {
    var seen: map<Place, string> := map[];
    for i := 0 to |an|
      invariant seen == Holders(an[..i])
    {
      var a := an[i];
      assert an[..i + 1][..i] == an[..i];
      if a.gateway == "" || a.nodeID == 0 {
        continue;
      }
      var key := (a.gateway, a.nodeID);
      if key in seen && seen[key] != a.device {
        continue;
      }
      seen := seen[key := a.device];
    }
    assert an[..|an|] == an;
    ds := [];
    for i := 0 to |an|
      invariant ds == Decisions(spec, fleet, seen, an[..i])
    {
      var a := an[i];
      assert an[..i + 1][..i] == an[..i];
      var ruling;
      if a.device in fleet.decommissioned {
        ruling := RejectDecommissioned;
      } else if a.device in fleet.existing {
        continue;
      } else if |spec.allowedModels| > 0 && a.model !in spec.allowedModels {
        ruling := RejectUnknownModel;
      } else if spec.requireTemplate != "" && a.device !in fleet.templateInstances {
        ruling := RejectNotInTemplate;
      } else if a.gateway != "" && a.nodeID != 0 &&
                (if (a.gateway, a.nodeID) in seen then seen[(a.gateway, a.nodeID)] != a.device else true) {
        ruling := RejectNodeIDTaken;
      } else if spec.autoApprove {
        ruling := Approved;
      } else {
        ruling := Pending;
      }
      ds := ds + [Decision(a, ruling)];
    }
  }

  // --- one device per place ----------------------------------------------------------------------

  lemma {:induction false} DecisionsCameFrom(spec: EnrollmentSpec, fleet: Fleet, seen: map<Place, string>,
                                             an: seq<Announcement>, d: Decision)
    requires d in Decisions(spec, fleet, seen, an)
    ensures d.announcement in an && d.ruling == Rule(spec, fleet, seen, d.announcement)
  {
    var init, a := an[..|an| - 1], an[|an| - 1];
    assert an == init + [a];
    if d in Decisions(spec, fleet, seen, init) {
      DecisionsCameFrom(spec, fleet, seen, init, d);
    }
  }

  /** No two devices let through in one batch - approved, or left for a human to approve - share a
      gateway and node. */
  lemma OneDevicePerPlace(spec: EnrollmentSpec, fleet: Fleet, an: seq<Announcement>, d: Decision, e: Decision)
    requires var ds := Decisions(spec, fleet, Holders(an), an); d in ds && e in ds
    requires (d.ruling.Approved? || d.ruling.Pending?) && (e.ruling.Approved? || e.ruling.Pending?)
    requires Claims(d.announcement) && Claims(e.announcement)
    requires PlaceOf(d.announcement) == PlaceOf(e.announcement)
    ensures d.announcement.device == e.announcement.device
  {
    DecisionsCameFrom(spec, fleet, Holders(an), an, d);
    DecisionsCameFrom(spec, fleet, Holders(an), an, e);
  }

  /** The first device to claim a place keeps it, however many claim it later. */
  lemma {:induction false} FirstClaimantHolds(an: seq<Announcement>, i: nat)
    requires i < |an| && Claims(an[i])
    requires forall j :: 0 <= j < i ==> !(Claims(an[j]) && PlaceOf(an[j]) == PlaceOf(an[i]))
    ensures PlaceOf(an[i]) in Holders(an) && Holders(an)[PlaceOf(an[i])] == an[i].device
  {
    var init := an[..|an| - 1];
    if i < |init| {
      assert forall j :: 0 <= j <= i ==> init[j] == an[j];
      FirstClaimantHolds(init, i);
    } else {
      UnclaimedIsFree(init, PlaceOf(an[i]));
    }
  }

  lemma {:induction false} UnclaimedIsFree(an: seq<Announcement>, p: Place)
    requires forall j :: 0 <= j < |an| ==> !(Claims(an[j]) && PlaceOf(an[j]) == p)
    ensures p !in Holders(an)
  {
    if an != [] {
      UnclaimedIsFree(an[..|an| - 1], p);
    }
  }

  /** Passes every test that comes before the one for a taken place. */
  predicate Presentable(spec: EnrollmentSpec, fleet: Fleet, a: Announcement) {
    && a.device !in fleet.decommissioned && a.device !in fleet.existing
    && (spec.allowedModels != [] ==> a.model in spec.allowedModels)
    && (spec.requireTemplate != "" ==> a.device in fleet.templateInstances)
  }

  /** A later announcement of a claimed place is flagged exactly when it is presentable and by another
      device. */
  lemma LaterClaimantFlagged(spec: EnrollmentSpec, fleet: Fleet, an: seq<Announcement>, i: nat, a: Announcement)
    requires i < |an| && Claims(a) && Claims(an[i]) && PlaceOf(an[i]) == PlaceOf(a)
    requires forall j :: 0 <= j < i ==> !(Claims(an[j]) && PlaceOf(an[j]) == PlaceOf(a))
    ensures Rule(spec, fleet, Holders(an), a).RejectNodeIDTaken? <==>
            Presentable(spec, fleet, a) && a.device != an[i].device
  {
    FirstClaimantHolds(an, i);
  }

  /** A clash therefore flags only the later claimant: the first is ruled as if it were alone. */
  lemma FirstClaimantNotFlagged(spec: EnrollmentSpec, fleet: Fleet, an: seq<Announcement>, i: nat)
    requires i < |an| && Claims(an[i])
    requires forall j :: 0 <= j < i ==> !(Claims(an[j]) && PlaceOf(an[j]) == PlaceOf(an[i]))
    ensures Rule(spec, fleet, Holders(an), an[i]) == Rule(spec, fleet, Holders([an[i]]), an[i])
    ensures !Rule(spec, fleet, Holders(an), an[i]).RejectNodeIDTaken?
  {
    FirstClaimantHolds(an, i);
    assert [an[i]][..0] == [];
  }

  /** The device holds the place it claims, or claims none: it was the first to claim it. */
  ghost predicate Placed(an: seq<Announcement>, a: Announcement) {
    Claims(a) ==>
      exists i :: && 0 <= i < |an| && Claims(an[i]) && PlaceOf(an[i]) == PlaceOf(a) && an[i].device == a.device
                  && forall j :: 0 <= j < i ==> !(Claims(an[j]) && PlaceOf(an[j]) == PlaceOf(a))
  }

  lemma FirstClaim(an: seq<Announcement>, p: Place, k: nat) returns (i: nat)
    requires k < |an| && Claims(an[k]) && PlaceOf(an[k]) == p
    ensures i <= k && Claims(an[i]) && PlaceOf(an[i]) == p
    ensures forall j :: 0 <= j < i ==> !(Claims(an[j]) && PlaceOf(an[j]) == p)
  {
    i := 0;
    while !(Claims(an[i]) && PlaceOf(an[i]) == p)
      invariant i <= k && forall j :: 0 <= j < i ==> !(Claims(an[j]) && PlaceOf(an[j]) == p)
      decreases k - i
    {
      i := i + 1;
    }
  }

  lemma PlacedIsHeld(an: seq<Announcement>, a: Announcement)
    requires a in an
    ensures Placed(an, a) <==> !Claims(a) || (PlaceOf(a) in Holders(an) && Holders(an)[PlaceOf(a)] == a.device)
  {
    if Claims(a) {
      var k :| 0 <= k < |an| && an[k] == a;
      var i := FirstClaim(an, PlaceOf(a), k);
      FirstClaimantHolds(an, i);
      if Placed(an, a) {
        var m :| && 0 <= m < |an| && Claims(an[m]) && PlaceOf(an[m]) == PlaceOf(a) && an[m].device == a.device
                 && forall j :: 0 <= j < m ==> !(Claims(an[j]) && PlaceOf(an[j]) == PlaceOf(a));
        assert m == i;
      }
    }
  }

  /** Who is let in, who waits for a human, and who is turned away first and why. */
  lemma RulingMeans(spec: EnrollmentSpec, fleet: Fleet, an: seq<Announcement>, a: Announcement)
    requires a in an
    ensures var r := Rule(spec, fleet, Holders(an), a);
            && (r.Approved? <==> Presentable(spec, fleet, a) && Placed(an, a) && spec.autoApprove)
            && (r.Pending? <==> Presentable(spec, fleet, a) && Placed(an, a) && !spec.autoApprove)
            && (r.RejectNodeIDTaken? <==> Presentable(spec, fleet, a) && !Placed(an, a))
            && (r.RejectDecommissioned? <==> a.device in fleet.decommissioned)
            && (r.AlreadyEnrolled? <==> a.device in fleet.existing && a.device !in fleet.decommissioned)
            && (r.RejectUnknownModel? ==> spec.allowedModels != [] && a.model !in spec.allowedModels)
            && (r.RejectNotInTemplate? ==> spec.requireTemplate != "" && a.device !in fleet.templateInstances)
  {
    PlacedIsHeld(an, a);
  }

  /** No gateway, or node zero, is no place: such a device is never turned away for another's. */
  lemma NoPlaceNoClash(spec: EnrollmentSpec, fleet: Fleet, seen: map<Place, string>, a: Announcement)
    requires a.gateway == "" || a.nodeID == 0
    ensures !Rule(spec, fleet, seen, a).RejectNodeIDTaken?
  {
  }

  /** Every announcement but those of enrolled devices gets a decision, in order. */
  lemma {:induction false} EveryoneIsRuled(spec: EnrollmentSpec, fleet: Fleet, seen: map<Place, string>,
                                           an: seq<Announcement>, a: Announcement)
    ensures (exists d :: d in Decisions(spec, fleet, seen, an) && d.announcement == a) <==>
            a in an && !Rule(spec, fleet, seen, a).AlreadyEnrolled?
  {
    if an != [] {
      var init, last := an[..|an| - 1], an[|an| - 1];
      assert an == init + [last];
      EveryoneIsRuled(spec, fleet, seen, init, a);
      var before, ds := Decisions(spec, fleet, seen, init), Decisions(spec, fleet, seen, an);
      var r := Rule(spec, fleet, seen, last);
      assert ds == before + if r.AlreadyEnrolled? then [] else [Decision(last, r)];
      if !r.AlreadyEnrolled? {
        assert Decision(last, r) in ds;
      }
      assert forall d :: d in before ==> d in ds;
    }
  }
}
