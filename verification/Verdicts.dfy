// Comparing vendors' verdicts (backend/internal/normalize/disagreement.go and the ranking in
// backend/internal/vendors/normalize.go).

module Verdicts {
  import opened Wrappers

  const ALLOWED := "allowed"
  const BLOCKED := "blocked"
  const CHALLENGED := "challenged"
  const RATE_LIMITED := "rate_limited"
  const MONITORED := "monitored"
  const UNKNOWN := "unknown"

  const BOT_SCORE := "bot"
  const DEFAULT_THRESHOLD := 0.8

  // Verdicts outside the six defined values rank with unknown.
  function Restrictiveness(v: string): nat {
    if v == BLOCKED then 5
    else if v == RATE_LIMITED then 4
    else if v == CHALLENGED then 3
    else if v == MONITORED then 2
    else if v == ALLOWED then 1
    else 0
  }

  datatype VendorVerdict = VendorVerdict(vendor: string, verdict: string, score: Option<real>, scoreKind: string)

  datatype Kind = Agreement | AllowVsBlock | AllowVsChallenge | ScoreConflict

  datatype Classification = Classification(kind: Kind, combinedOutcome: string, disagreement: bool)

  // r is the strongest verdict of vs: no verdict outranks it, and when nothing ranks above
  // unknown it is unknown itself rather than some undefined spelling.
  ghost predicate IsMostRestrictive(vs: seq<VendorVerdict>, r: string) {
    && (forall v | v in vs :: Restrictiveness(v.verdict) <= Restrictiveness(r))
    && (r == UNKNOWN || (Restrictiveness(r) > 0 && exists v | v in vs :: v.verdict == r))
  }

  lemma RankedVerdictsDiffer(a: string, b: string)
    requires Restrictiveness(a) == Restrictiveness(b) > 0
    ensures a == b
  {
  }

  ghost predicate Saw(vs: seq<VendorVerdict>, verdict: string) {
    exists v | v in vs :: v.verdict == verdict
  }

  // The strongest verdict depends on which verdicts were reached, not on order or repetition.
  lemma MostRestrictiveIsUnique(vs: seq<VendorVerdict>, ws: seq<VendorVerdict>, r: string, s: string)
    requires IsMostRestrictive(vs, r) && IsMostRestrictive(ws, s)
    requires forall verdict :: Saw(vs, verdict) <==> Saw(ws, verdict)
    ensures r == s
  {
    if Restrictiveness(r) > 0 {
      assert Saw(ws, r);
    }
    if Restrictiveness(s) > 0 {
      assert Saw(vs, s);
      RankedVerdictsDiffer(r, s);
    }
  }

  ghost predicate SawBlocked(vs: seq<VendorVerdict>) {
    Saw(vs, BLOCKED) || Saw(vs, RATE_LIMITED)
  }

  predicate IsHighBotScore(v: VendorVerdict, threshold: real) {
    v.scoreKind == BOT_SCORE && v.score.Some? && v.score.value >= threshold
  }

  function Effective(threshold: real): real {
    if threshold <= 0.0 then DEFAULT_THRESHOLD else threshold
  }

  ghost predicate AllAllowed(vs: seq<VendorVerdict>) {
    forall v | v in vs :: v.verdict == ALLOWED
  }

  ghost predicate HasHighBotScore(vs: seq<VendorVerdict>, threshold: real) {
    exists v | v in vs :: IsHighBotScore(v, threshold)
  }

  // What the verdicts amount to, by what was seen among them.
  ghost function KindOf(vs: seq<VendorVerdict>, threshold: real): Kind {
    if |vs| < 2 then Agreement
    else if Saw(vs, ALLOWED) && SawBlocked(vs) then AllowVsBlock
    else if Saw(vs, ALLOWED) && Saw(vs, CHALLENGED) then AllowVsChallenge
    else if AllAllowed(vs) && HasHighBotScore(vs, Effective(threshold)) then ScoreConflict
    else Agreement
  }

  ghost predicate Classifies(vs: seq<VendorVerdict>, threshold: real, c: Classification) {
    && IsMostRestrictive(vs, c.combinedOutcome)
    && c.kind == KindOf(vs, threshold)
    && c.disagreement == (c.kind != Agreement)
  }

  method MostRestrictive(vs: seq<VendorVerdict>) returns (best: string)
    ensures IsMostRestrictive(vs, best)
  {
    best := UNKNOWN;
    for i := 0 to |vs|
      invariant IsMostRestrictive(vs[..i], best)
    {
      assert vs[..i + 1] == vs[..i] + [vs[i]];
      if Restrictiveness(vs[i].verdict) > Restrictiveness(best) {
        best := vs[i].verdict;
      }
    }
    assert vs[..|vs|] == vs;
  }

  method FindHighBotScore(vs: seq<VendorVerdict>, threshold: real) returns (found: bool)
    ensures found <==> HasHighBotScore(vs, threshold)
  {
    for i := 0 to |vs|
      invariant forall j | 0 <= j < i :: !IsHighBotScore(vs[j], threshold)
    {
      if IsHighBotScore(vs[i], threshold) {
        return true;
      }
    }
    return false;
  }

  method CheckAllAllowed(vs: seq<VendorVerdict>) returns (all: bool)
    ensures all <==> AllAllowed(vs)
  {
    for i := 0 to |vs|
      invariant forall j | 0 <= j < i :: vs[j].verdict == ALLOWED
    {
      if vs[i].verdict != ALLOWED {
        return false;
      }
    }
    return true;
  }

  method Classify(vs: seq<VendorVerdict>, scoreThreshold: real) returns (c: Classification)
    ensures Classifies(vs, scoreThreshold, c)
  {
    var threshold := if scoreThreshold <= 0.0 then DEFAULT_THRESHOLD else scoreThreshold;
    var combined := MostRestrictive(vs);
    if |vs| < 2 {
      return Classification(Agreement, combined, false);
    }
    var sawAllowed, sawBlocked, sawChallenged := false, false, false;
    for i := 0 to |vs|
      invariant sawAllowed <==> Saw(vs[..i], ALLOWED)
      invariant sawBlocked <==> SawBlocked(vs[..i])
      invariant sawChallenged <==> Saw(vs[..i], CHALLENGED)
    {
      assert vs[..i + 1] == vs[..i] + [vs[i]];
      var verdict := vs[i].verdict;
      SawSnoc(vs[..i], vs[i], ALLOWED);
      SawSnoc(vs[..i], vs[i], BLOCKED);
      SawSnoc(vs[..i], vs[i], RATE_LIMITED);
      SawSnoc(vs[..i], vs[i], CHALLENGED);
      if verdict == ALLOWED {
        sawAllowed := true;
      } else if verdict == BLOCKED || verdict == RATE_LIMITED {
        sawBlocked := true;
      } else if verdict == CHALLENGED {
        sawChallenged := true;
      }
    }
    assert vs[..|vs|] == vs;
    if sawAllowed && sawBlocked {
      return Classification(AllowVsBlock, combined, true);
    } else if sawAllowed && sawChallenged {
      return Classification(AllowVsChallenge, combined, true);
    }
    var all := CheckAllAllowed(vs);
    var high := FindHighBotScore(vs, threshold);
    if all && high {
      return Classification(ScoreConflict, combined, true);
    }
    return Classification(Agreement, combined, false);
  }

  lemma SawSnoc(vs: seq<VendorVerdict>, v: VendorVerdict, verdict: string)
    ensures Saw(vs + [v], verdict) <==> Saw(vs, verdict) || v.verdict == verdict
  {
    if Saw(vs, verdict) {
      var w :| w in vs && w.verdict == verdict;
      assert w in vs + [v];
    }
    assert v in vs + [v];
  }

  // ---------------------------------------------------------------- properties

  // A classification depends on how many verdicts there are, which ones, and whether any of them
  // carries a high bot score; on nothing else.
  lemma ClassifyDependsOnVerdictsOnly(vs: seq<VendorVerdict>, ws: seq<VendorVerdict>, threshold: real,
                                      c: Classification, d: Classification)
    requires Classifies(vs, threshold, c) && Classifies(ws, threshold, d)
    requires |vs| == |ws| && forall verdict :: Saw(vs, verdict) <==> Saw(ws, verdict)
    requires HasHighBotScore(vs, Effective(threshold)) <==> HasHighBotScore(ws, Effective(threshold))
    ensures c == d
  {
    MostRestrictiveIsUnique(vs, ws, c.combinedOutcome, d.combinedOutcome);
    AllAllowedBySeeing(vs);
    AllAllowedBySeeing(ws);
  }

  lemma AllAllowedBySeeing(vs: seq<VendorVerdict>)
    ensures AllAllowed(vs) <==> forall verdict | Saw(vs, verdict) :: verdict == ALLOWED
  {
    if forall verdict | Saw(vs, verdict) :: verdict == ALLOWED {
      forall v | v in vs ensures v.verdict == ALLOWED {
        assert Saw(vs, v.verdict);
      }
    }
  }

  // The order in which vendors are listed decides nothing, so neither does map order.
  lemma ClassifyIgnoresOrder(vs: seq<VendorVerdict>, ws: seq<VendorVerdict>, threshold: real,
                             c: Classification, d: Classification)
    requires Classifies(vs, threshold, c) && Classifies(ws, threshold, d)
    requires multiset(vs) == multiset(ws)
    ensures c == d
  {
    assert |vs| == |multiset(vs)| == |multiset(ws)| == |ws|;
    forall v ensures v in vs <==> v in ws {
      assert v in vs <==> v in multiset(vs);
    }
    ClassifyDependsOnVerdictsOnly(vs, ws, threshold, c, d);
  }

  // Every list of verdicts has a classification.
  lemma {:induction false} SomeMostRestrictive(vs: seq<VendorVerdict>) returns (r: string)
    ensures IsMostRestrictive(vs, r)
  {
    r := UNKNOWN;
    if vs != [] {
      var init, last := vs[..|vs| - 1], vs[|vs| - 1];
      assert vs == init + [last];
      r := SomeMostRestrictive(init);
      if Restrictiveness(last.verdict) > Restrictiveness(r) {
        r := last.verdict;
      }
    }
  }

  lemma SomeClassification(vs: seq<VendorVerdict>, threshold: real) returns (c: Classification)
    ensures Classifies(vs, threshold, c)
  {
    var r := SomeMostRestrictive(vs);
    c := Classification(KindOf(vs, threshold), r, KindOf(vs, threshold) != Agreement);
  }

  // Adding vendors never weakens the combined outcome, and an allow-vs-block disagreement is
  // never lost by it.
  lemma AddingVendorsNeverWeakens(vs: seq<VendorVerdict>, more: seq<VendorVerdict>, threshold: real,
                                  c: Classification, d: Classification)
    requires Classifies(vs, threshold, c) && Classifies(vs + more, threshold, d)
    ensures Restrictiveness(c.combinedOutcome) <= Restrictiveness(d.combinedOutcome)
    ensures c.kind == AllowVsBlock ==> d.kind == AllowVsBlock && d.disagreement
  {
    if c.combinedOutcome != UNKNOWN {
      var v :| v in vs && v.verdict == c.combinedOutcome;
      assert v in vs + more;
    }
    if c.kind == AllowVsBlock {
      forall verdict | Saw(vs, verdict) ensures Saw(vs + more, verdict) {
        var v :| v in vs && v.verdict == verdict;
        assert v in vs + more;
      }
    }
  }

  // Which disagreements survive one more vendor: all of them, except that a score conflict is
  // lost when the new verdict is neither an allow nor a block nor a challenge.
  lemma DisagreementSurvivesAVendor(vs: seq<VendorVerdict>, v: VendorVerdict, threshold: real,
                                    c: Classification, d: Classification)
    requires Classifies(vs, threshold, c) && Classifies(vs + [v], threshold, d) && c.disagreement
    ensures d.disagreement <==>
      c.kind != ScoreConflict || v.verdict in {ALLOWED, BLOCKED, RATE_LIMITED, CHALLENGED}
  {
    SawSnoc(vs, v, ALLOWED);
    SawSnoc(vs, v, BLOCKED);
    SawSnoc(vs, v, RATE_LIMITED);
    SawSnoc(vs, v, CHALLENGED);
    assert v in vs + [v];
    if c.kind == ScoreConflict {
      assert vs[0] in vs;
      assert Saw(vs, ALLOWED);
      var w :| w in vs && IsHighBotScore(w, Effective(threshold));
      assert w in vs + [v];
      assert forall verdict | verdict != ALLOWED :: !Saw(vs, verdict);
    }
  }

  // ---------------------------------------------------------------- the outcome, verdict by verdict

  // The combined outcome is the first of blocked, rate limited, challenged, monitored and allowed that
  // some vendor reached, and unknown when none of them was.
  lemma OutcomeByPrecedence(vs: seq<VendorVerdict>, r: string)
    requires IsMostRestrictive(vs, r)
    ensures var b, l, c, m, a :=
        (exists v :: v in vs && v.verdict == "blocked"), (exists v :: v in vs && v.verdict == "rate_limited"),
        (exists v :: v in vs && v.verdict == "challenged"), (exists v :: v in vs && v.verdict == "monitored"),
        (exists v :: v in vs && v.verdict == "allowed");
      r == if b then "blocked" else if l then "rate_limited" else if c then "challenged"
           else if m then "monitored" else if a then "allowed" else "unknown"
  {
    RanksAre();
    if r != UNKNOWN {
      var v :| v in vs && v.verdict == r;
    }
    RankedIsKnown(r);
    hide Restrictiveness;
  }

  lemma RanksAre()
    ensures Restrictiveness("blocked") > Restrictiveness("rate_limited") > Restrictiveness("challenged")
          > Restrictiveness("monitored") > Restrictiveness("allowed") > Restrictiveness("unknown") == 0
  {
    assert "blocked"[0] == 'b' && "rate_limited"[0] == 'r' && "challenged"[0] == 'c';
    assert "monitored"[0] == 'm' && "allowed"[0] == 'a' && "unknown"[0] == 'u';
  }

  lemma RankedIsKnown(r: string)
    ensures Restrictiveness(r) > 0 ==> r in {"blocked", "rate_limited", "challenged", "monitored", "allowed"}
  {
  }

  // The kind of a disagreement, by what the vendors said: allowing against blocking or limiting first,
  // then allowing against challenging, then a high bot score on a request everyone allowed. One
  // vendor alone never disagrees.
  lemma KindSays(vs: seq<VendorVerdict>, threshold: real, c: Classification)
    requires Classifies(vs, threshold, c)
    ensures c.kind == AllowVsBlock <==>
      && (exists v :: v in vs && v.verdict == "allowed")
      && (exists v :: v in vs && (v.verdict == "blocked" || v.verdict == "rate_limited"))
    ensures c.kind == AllowVsChallenge <==>
      && (exists v :: v in vs && v.verdict == "allowed") && (exists v :: v in vs && v.verdict == "challenged")
      && (forall v | v in vs :: v.verdict != "blocked" && v.verdict != "rate_limited")
    ensures c.kind == ScoreConflict <==>
      && |vs| > 1 && (forall v | v in vs :: v.verdict == "allowed")
      && (exists v :: v in vs && v.scoreKind == "bot" && v.score.Some?
                      && v.score.value >= if threshold <= 0.0 then 0.8 else threshold)
    ensures c.disagreement <==> c.kind != Agreement
  {
    assert ALLOWED == "allowed" && BLOCKED == "blocked" && CHALLENGED == "challenged" && RATE_LIMITED == "rate_limited";
    assert ALLOWED[0] == 'a' && BLOCKED[0] == 'b' && CHALLENGED[0] == 'c' && RATE_LIMITED[0] == 'r';
    TwoVerdictsTwoVendors(vs);
    if HasHighBotScore(vs, Effective(threshold)) {
      var v :| v in vs && IsHighBotScore(v, Effective(threshold));
    }
    if v :| v in vs && v.scoreKind == "bot" && v.score.Some? && v.score.value >= if threshold <= 0.0 then 0.8 else threshold {
      assert IsHighBotScore(v, Effective(threshold));
    }
  }

  lemma TwoVerdictsTwoVendors(vs: seq<VendorVerdict>)
    ensures forall v, w | v in vs && w in vs && v.verdict != w.verdict :: |vs| > 1
  {
  }
}
