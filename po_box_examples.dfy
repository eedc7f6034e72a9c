/** The addresses in the docstring of `ProcessPOBOX` (address_parser.py,
    lines 198-200), and three more that show its edge cases, worked through
    the model one step at a time. Each address is written as the tokens
    that `split(" ")` cuts it into (a doubled space gives an empty token),
    and each example states what the record's `fixedAddress` becomes.

    Every step is stated on literal values by a small lemma of its own; a
    second lemma carries those facts over to named values, and the general
    lemmas below chain them together. */
module PoBoxExamples {
  import opened PyText
  import opened PoBox

  // ---------------------------------------------------------------------------
  // General steps
  // ---------------------------------------------------------------------------

  lemma ForwardRemoves(low: seq<string>, k: nat, j: nat, afterForward: seq<string>)
    requires k + 1 < |low| && IsAlnum(low[k + 1])
    requires j < |low| && low[j] == low[k + 1] && low[k + 1] !in low[..j]
    requires low[..j] + low[j + 1..] == afterForward
    ensures ForwardStep(low, k) == afterForward
  {
    IndexOfAt(low, j);
  }

  lemma ForwardKeeps(low: seq<string>, k: nat)
    requires k + 1 < |low| && !IsAlnum(low[k + 1])
    ensures ForwardStep(low, k) == low
  {
  }

  lemma ScanRemoves(ts: seq<string>, snapshot: seq<string>, i: nat, ts': seq<string>)
    requires |snapshot| > 0 && snapshot[|snapshot| - 1] in PoPrefixes
    requires i < |ts| && ts[i] == snapshot[|snapshot| - 1] && snapshot[|snapshot| - 1] !in ts[..i]
    requires ts[..i] + ts[i + 1..] == ts'
    ensures BackScan(ts, snapshot) == BackScan(ts', snapshot[..|snapshot| - 1])
  {
    IndexOfAt(ts, i);
  }

  lemma ScanStops(ts: seq<string>, snapshot: seq<string>)
    requires |snapshot| == 0 || snapshot[|snapshot| - 1] !in PoPrefixes
    ensures BackScan(ts, snapshot) == Some(ts)
  {
  }

  lemma RemoveAt(xs: seq<string>, x: string, i: nat, r: seq<string>)
    requires i < |xs| && xs[i] == x && x !in xs[..i]
    requires xs[..i] + xs[i + 1..] == r
    ensures Remove(xs, x) == Some(r)
  {
    IndexOfAt(xs, i);
  }

  /** A backward scan over the two P.O. prefix tokens `p` and `o` that
      start the list: each is the first copy of its value, the scan removes
      both and stops at the start of the snapshot. */
  lemma TwoScans(afterForward: seq<string>, p: string, o: string, afterBack: seq<string>)
    requires p in PoPrefixes && o in PoPrefixes && p != o
    requires |afterForward| >= 2 && afterForward[0] == p && afterForward[1] == o
    requires afterForward[2..] == afterBack
    ensures BackScan(afterForward, afterForward[..2]) == Some(afterBack)
  {
    var scan1 := [p] + afterBack;
    assert afterForward[..2] == [p, o];
    assert afterForward[..1] + afterForward[2..] == scan1;
    ScanRemoves(afterForward, [p, o], 1, scan1);
    assert [p, o][..1] == [p];
    ScanRemoves(scan1, [p], 0, afterBack);
    assert [p][..0] == [];
    ScanStops(afterBack, []);
  }

  /** An address made of `tokens` whose steps are known is fixed. */
  lemma FixedFromSteps(tokens: seq<string>, low: seq<string>, k: nat,
                       afterForward: seq<string>, afterBack: seq<string>, rest: seq<string>)
    requires |tokens| >= 1 && forall i :: 0 <= i < |tokens| ==> ' ' !in tokens[i]
    requires LowerAll(tokens) == low
    requires k + 1 < |low| && low[k] == BoxMarker && BoxMarker !in low[..k]
    requires ForwardStep(low, k) == afterForward
    requires BackScan(afterForward, afterForward[..k]) == Some(afterBack)
    requires Remove(afterBack, BoxMarker) == Some(rest)
    ensures Normalize(Join(' ', tokens), BoxMarker) == Fixed(Strip(Join(' ', rest)))
  {
    IndexOfAt(low, k);
    SplitJoin(tokens, ' ');
    assert Tokens(Join(' ', tokens)) == low;
    ReduceFixed(low, BoxMarker, afterBack);
  }

  /** The first and the last character of a join of non-empty tokens. */
  lemma {:induction false} JoinEnds(ts: seq<string>)
    requires |ts| > 0 && forall i :: 0 <= i < |ts| ==> ts[i] != ""
    ensures |Join(' ', ts)| > 0
    ensures Join(' ', ts)[0] == ts[0][0]
    ensures Join(' ', ts)[|Join(' ', ts)| - 1] == ts[|ts| - 1][|ts[|ts| - 1]| - 1]
    decreases |ts|
  {
    if |ts| > 1 {
      JoinEnds(ts[1..]);
    }
  }

  lemma StripJoined(ts: seq<string>)
    requires |ts| > 0 && forall i :: 0 <= i < |ts| ==> ts[i] != ""
    requires !IsSpace(ts[0][0]) && !IsSpace(ts[|ts| - 1][|ts[|ts| - 1]| - 1])
    ensures Strip(Join(' ', ts)) == Join(' ', ts)
  {
    JoinEnds(ts);
  }

  /** A leading empty token, left by a doubled space, is stripped away
      with the space that follows it. */
  lemma StripLeadingEmpty(ts: seq<string>)
    requires |ts| > 0 && forall i :: 0 <= i < |ts| ==> ts[i] != ""
    requires !IsSpace(ts[0][0]) && !IsSpace(ts[|ts| - 1][|ts[|ts| - 1]| - 1])
    ensures Strip(Join(' ', [""] + ts)) == Join(' ', ts)
  {
    JoinEnds(ts);
    var s := Join(' ', ts);
    assert ([""] + ts)[1..] == ts;
    assert Join(' ', [""] + ts) == [' '] + s;
    assert ([' '] + s)[1..] == s;
  }

  // ---------------------------------------------------------------------------
  // Docstring example 1 (line 199)
  // ---------------------------------------------------------------------------

  const FrontStreetTokens: seq<string> := ["P", "O", "Box", "337", "", "216", "West", "Front", "Street", "#11"]
  const FrontStreetLowered: seq<string> := ["p", "o", "box", "337", "", "216", "west", "front", "street", "#11"]
  const FrontStreetAfterForward: seq<string> := ["p", "o", "box", "", "216", "west", "front", "street", "#11"]
  const FrontStreetAfterBack: seq<string> := ["box", "", "216", "west", "front", "street", "#11"]
  const FrontStreetRest: seq<string> := ["", "216", "west", "front", "street", "#11"]
  const FrontStreetFixed: seq<string> := ["216", "west", "front", "street", "#11"]

  lemma FrontStreetLowerCase()
    ensures forall i :: 0 <= i < |FrontStreetTokens| ==> ' ' !in FrontStreetTokens[i]
    ensures LowerAll(FrontStreetTokens) == FrontStreetLowered
  {
    assert Lower("") == "";
    assert Lower("#11") == "#11";
    assert Lower("216") == "216";
    assert Lower("337") == "337";
    assert Lower("Box") == "box";
    assert Lower("Front") == "front";
    assert Lower("O") == "o";
    assert Lower("P") == "p";
    assert Lower("Street") == "street";
    assert Lower("West") == "west";
  }

  lemma FrontStreetForwardFacts()
    ensures FrontStreetLowered[2] == BoxMarker && BoxMarker !in FrontStreetLowered[..2]
    ensures IsAlnum(FrontStreetLowered[3]) && FrontStreetLowered[3] !in FrontStreetLowered[..3]
    ensures FrontStreetLowered[..3] + FrontStreetLowered[4..] == FrontStreetAfterForward
  {
  }

  lemma FrontStreetScanFacts()
    ensures "p" in PoPrefixes && "o" in PoPrefixes
    ensures |FrontStreetAfterForward| >= 2 && FrontStreetAfterForward[0] == "p" && FrontStreetAfterForward[1] == "o"
    ensures FrontStreetAfterForward[2..] == FrontStreetAfterBack
  {
  }

  lemma FrontStreetMarkerFacts()
    ensures FrontStreetAfterBack[0] == BoxMarker && BoxMarker !in FrontStreetAfterBack[..0]
    ensures FrontStreetAfterBack[..0] + FrontStreetAfterBack[1..] == FrontStreetRest
    ensures FrontStreetRest == [""] + FrontStreetFixed
    ensures |FrontStreetFixed| > 0 && forall i :: 0 <= i < |FrontStreetFixed| ==> FrontStreetFixed[i] != ""
    ensures !IsSpace(FrontStreetFixed[0][0]) && !IsSpace(FrontStreetFixed[4][2])
  {
  }

  /** The facts of FrontStreet, on named values. */
  lemma FrontStreetFacts(tokens: seq<string>, fixed: seq<string>)
    returns (low: seq<string>, afterForward: seq<string>, afterBack: seq<string>, rest: seq<string>)
    requires tokens == FrontStreetTokens && fixed == FrontStreetFixed
    ensures forall i :: 0 <= i < |tokens| ==> ' ' !in tokens[i]
    ensures LowerAll(tokens) == low
    ensures |low| == 10 && low[2] == BoxMarker && BoxMarker !in low[..2]
    ensures IsAlnum(low[3]) && low[3] !in low[..3]
    ensures low[..3] + low[4..] == afterForward
    ensures |afterForward| >= 2 && afterForward[0] == "p" && afterForward[1] == "o"
    ensures afterForward[2..] == afterBack
    ensures |afterBack| > 0 && afterBack[0] == BoxMarker && BoxMarker !in afterBack[..0]
    ensures afterBack[..0] + afterBack[1..] == rest
    ensures rest == [""] + fixed
    ensures |fixed| > 0 && forall i :: 0 <= i < |fixed| ==> fixed[i] != ""
    ensures !IsSpace(fixed[0][0]) && !IsSpace(fixed[|fixed| - 1][|fixed[|fixed| - 1]| - 1])
  {
    low, afterForward := FrontStreetLowered, FrontStreetAfterForward;
    afterBack := FrontStreetAfterBack;
    rest := FrontStreetRest;
    FrontStreetLowerCase();
    FrontStreetForwardFacts();
    FrontStreetScanFacts();
    FrontStreetMarkerFacts();
  }

  /** The steps of FrontStreet, as `FixedFromSteps` takes them. */
  lemma FrontStreetSteps(tokens: seq<string>, fixed: seq<string>)
    returns (low: seq<string>, afterForward: seq<string>, afterBack: seq<string>, rest: seq<string>)
    requires tokens == FrontStreetTokens && fixed == FrontStreetFixed
    ensures |tokens| >= 1 && forall i :: 0 <= i < |tokens| ==> ' ' !in tokens[i]
    ensures LowerAll(tokens) == low
    ensures 2 + 1 < |low| && low[2] == BoxMarker && BoxMarker !in low[..2]
    ensures ForwardStep(low, 2) == afterForward
    ensures BackScan(afterForward, afterForward[..2]) == Some(afterBack)
    ensures Remove(afterBack, BoxMarker) == Some(rest)
    ensures rest == [""] + fixed
    ensures |fixed| > 0 && forall i :: 0 <= i < |fixed| ==> fixed[i] != ""
    ensures !IsSpace(fixed[0][0]) && !IsSpace(fixed[|fixed| - 1][|fixed[|fixed| - 1]| - 1])
  {
    low, afterForward, afterBack, rest := FrontStreetFacts(tokens, fixed);
    ForwardRemoves(low, 2, 3, afterForward);
    TwoScans(afterForward, "p", "o", afterBack);
    RemoveAt(afterBack, BoxMarker, 0, rest);
  }

  /** "P O Box 337  216 West Front Street #11" is fixed to "216 west front street #11": the doubled space leaves an empty token, which the final strip removes. */
  lemma FrontStreet(tokens: seq<string>, fixed: seq<string>)
    requires tokens == FrontStreetTokens && fixed == FrontStreetFixed
    ensures Normalize(Join(' ', tokens), BoxMarker) == Fixed(Join(' ', fixed))
  {
    var low, afterForward, afterBack, rest := FrontStreetSteps(tokens, fixed);
    FixedFromSteps(tokens, low, 2, afterForward, afterBack, rest);
    StripLeadingEmpty(fixed);
  }

  // ---------------------------------------------------------------------------
  // Docstring example 2 (line 199)
  // ---------------------------------------------------------------------------

  const DocRoadTokens: seq<string> := ["15355", "Doc", "Rd", "Hwy", "89", "P.O.", "Box", "717"]
  const DocRoadLowered: seq<string> := ["15355", "doc", "rd", "hwy", "89", "p.o.", "box", "717"]
  const DocRoadAfterForward: seq<string> := ["15355", "doc", "rd", "hwy", "89", "p.o.", "box"]
  const DocRoadAfterBack: seq<string> := ["15355", "doc", "rd", "hwy", "89", "box"]
  const DocRoadRest: seq<string> := ["15355", "doc", "rd", "hwy", "89"]
  const DocRoadFixed: seq<string> := ["15355", "doc", "rd", "hwy", "89"]

  lemma DocRoadLowerCase()
    ensures forall i :: 0 <= i < |DocRoadTokens| ==> ' ' !in DocRoadTokens[i]
    ensures LowerAll(DocRoadTokens) == DocRoadLowered
  {
    assert Lower("15355") == "15355";
    assert Lower("717") == "717";
    assert Lower("89") == "89";
    assert Lower("Box") == "box";
    assert Lower("Doc") == "doc";
    assert Lower("Hwy") == "hwy";
    assert Lower("P.O.") == "p.o.";
    assert Lower("Rd") == "rd";
  }

  lemma DocRoadForwardFacts()
    ensures DocRoadLowered[6] == BoxMarker && BoxMarker !in DocRoadLowered[..6]
    ensures IsAlnum(DocRoadLowered[7]) && DocRoadLowered[7] !in DocRoadLowered[..7]
    ensures DocRoadLowered[..7] + DocRoadLowered[8..] == DocRoadAfterForward
  {
  }

  lemma DocRoadScanFacts()
    ensures DocRoadAfterForward[..6] == ["15355", "doc", "rd", "hwy", "89", "p.o."]
    ensures "p.o." in PoPrefixes && DocRoadAfterForward[5] == "p.o." && "p.o." !in DocRoadAfterForward[..5] && DocRoadAfterForward[..5] + DocRoadAfterForward[6..] == DocRoadAfterBack
    ensures "89" !in PoPrefixes
  {
  }

  lemma DocRoadMarkerFacts()
    ensures DocRoadAfterBack[5] == BoxMarker && BoxMarker !in DocRoadAfterBack[..5]
    ensures DocRoadAfterBack[..5] + DocRoadAfterBack[6..] == DocRoadRest
    ensures DocRoadRest == DocRoadFixed
    ensures |DocRoadFixed| > 0 && forall i :: 0 <= i < |DocRoadFixed| ==> DocRoadFixed[i] != ""
    ensures !IsSpace(DocRoadFixed[0][0]) && !IsSpace(DocRoadFixed[4][1])
  {
  }

  /** The steps of DocRoad, on named values. */
  lemma DocRoadSteps(tokens: seq<string>, fixed: seq<string>)
    returns (low: seq<string>, afterForward: seq<string>, snapshot: seq<string>, afterBack: seq<string>, rest: seq<string>)
    requires tokens == DocRoadTokens && fixed == DocRoadFixed
    ensures forall i :: 0 <= i < |tokens| ==> ' ' !in tokens[i]
    ensures LowerAll(tokens) == low
    ensures low[6] == BoxMarker && BoxMarker !in low[..6]
    ensures IsAlnum(low[7]) && low[7] !in low[..7]
    ensures low[..7] + low[8..] == afterForward
    ensures afterForward[..6] == snapshot
    ensures snapshot[5] in PoPrefixes && afterForward[5] == snapshot[5] && snapshot[5] !in afterForward[..5] && afterForward[..5] + afterForward[6..] == afterBack
    ensures snapshot[4] !in PoPrefixes
    ensures afterBack[5] == BoxMarker && BoxMarker !in afterBack[..5]
    ensures afterBack[..5] + afterBack[6..] == rest
    ensures rest == fixed
    ensures |fixed| > 0 && forall i :: 0 <= i < |fixed| ==> fixed[i] != ""
    ensures !IsSpace(fixed[0][0]) && !IsSpace(fixed[|fixed| - 1][|fixed[|fixed| - 1]| - 1])
  {
    low, afterForward, snapshot := DocRoadLowered, DocRoadAfterForward, ["15355", "doc", "rd", "hwy", "89", "p.o."];
    afterBack := DocRoadAfterBack;
    rest := DocRoadRest;
    DocRoadLowerCase();
    DocRoadForwardFacts();
    DocRoadScanFacts();
    DocRoadMarkerFacts();
  }

  /** "15355 Doc Rd Hwy 89 P.O. Box 717" is fixed to "15355 doc rd hwy 89": the scan removes "p.o." and stops at "89". */
  lemma DocRoad(tokens: seq<string>, fixed: seq<string>)
    requires tokens == DocRoadTokens && fixed == DocRoadFixed
    ensures Normalize(Join(' ', tokens), BoxMarker) == Fixed(Join(' ', fixed))
  {
    var low, afterForward, snapshot, afterBack, rest := DocRoadSteps(tokens, fixed);
    ForwardRemoves(low, 6, 7, afterForward);
    ScanRemoves(afterForward, snapshot, 5, afterBack);
    ScanStops(afterBack, snapshot[..5]);
    RemoveAt(afterBack, BoxMarker, 5, rest);
    FixedFromSteps(tokens, low, 6, afterForward, afterBack, rest);
    StripJoined(fixed);
  }

  // ---------------------------------------------------------------------------
  // Docstring example 3 (line 199)
  // ---------------------------------------------------------------------------

  const RouteBoxTokens: seq<string> := ["Rte", "1", "Box", "147"]
  const RouteBoxLowered: seq<string> := ["rte", "1", "box", "147"]
  const RouteBoxAfterForward: seq<string> := ["rte", "1", "box"]
  const RouteBoxRest: seq<string> := ["rte", "1"]
  const RouteBoxFixed: seq<string> := ["rte", "1"]

  lemma RouteBoxLowerCase()
    ensures forall i :: 0 <= i < |RouteBoxTokens| ==> ' ' !in RouteBoxTokens[i]
    ensures LowerAll(RouteBoxTokens) == RouteBoxLowered
  {
    assert Lower("1") == "1";
    assert Lower("147") == "147";
    assert Lower("Box") == "box";
    assert Lower("Rte") == "rte";
  }

  lemma RouteBoxForwardFacts()
    ensures RouteBoxLowered[2] == BoxMarker && BoxMarker !in RouteBoxLowered[..2]
    ensures IsAlnum(RouteBoxLowered[3]) && RouteBoxLowered[3] !in RouteBoxLowered[..3]
    ensures RouteBoxLowered[..3] + RouteBoxLowered[4..] == RouteBoxAfterForward
  {
  }

  lemma RouteBoxScanFacts()
    ensures RouteBoxAfterForward[..2] == ["rte", "1"]
    ensures "1" !in PoPrefixes
  {
  }

  lemma RouteBoxMarkerFacts()
    ensures RouteBoxAfterForward[2] == BoxMarker && BoxMarker !in RouteBoxAfterForward[..2]
    ensures RouteBoxAfterForward[..2] + RouteBoxAfterForward[3..] == RouteBoxRest
    ensures RouteBoxRest == RouteBoxFixed
    ensures |RouteBoxFixed| > 0 && forall i :: 0 <= i < |RouteBoxFixed| ==> RouteBoxFixed[i] != ""
    ensures !IsSpace(RouteBoxFixed[0][0]) && !IsSpace(RouteBoxFixed[1][0])
  {
  }

  /** The steps of RouteBox, on named values. */
  lemma RouteBoxSteps(tokens: seq<string>, fixed: seq<string>)
    returns (low: seq<string>, afterForward: seq<string>, snapshot: seq<string>, afterBack: seq<string>, rest: seq<string>)
    requires tokens == RouteBoxTokens && fixed == RouteBoxFixed
    ensures afterBack == afterForward
    ensures forall i :: 0 <= i < |tokens| ==> ' ' !in tokens[i]
    ensures LowerAll(tokens) == low
    ensures low[2] == BoxMarker && BoxMarker !in low[..2]
    ensures IsAlnum(low[3]) && low[3] !in low[..3]
    ensures low[..3] + low[4..] == afterForward
    ensures afterForward[..2] == snapshot
    ensures snapshot[1] !in PoPrefixes
    ensures afterBack[2] == BoxMarker && BoxMarker !in afterBack[..2]
    ensures afterBack[..2] + afterBack[3..] == rest
    ensures rest == fixed
    ensures |fixed| > 0 && forall i :: 0 <= i < |fixed| ==> fixed[i] != ""
    ensures !IsSpace(fixed[0][0]) && !IsSpace(fixed[|fixed| - 1][|fixed[|fixed| - 1]| - 1])
  {
    low, afterForward, snapshot := RouteBoxLowered, RouteBoxAfterForward, ["rte", "1"];
    afterBack := afterForward;
    rest := RouteBoxRest;
    RouteBoxLowerCase();
    RouteBoxForwardFacts();
    RouteBoxScanFacts();
    RouteBoxMarkerFacts();
  }

  /** "Rte 1 Box 147" is fixed to "rte 1": the scan stops at once. */
  lemma RouteBox(tokens: seq<string>, fixed: seq<string>)
    requires tokens == RouteBoxTokens && fixed == RouteBoxFixed
    ensures Normalize(Join(' ', tokens), BoxMarker) == Fixed(Join(' ', fixed))
  {
    var low, afterForward, snapshot, afterBack, rest := RouteBoxSteps(tokens, fixed);
    ForwardRemoves(low, 2, 3, afterForward);
    ScanStops(afterBack, snapshot);
    RemoveAt(afterBack, BoxMarker, 2, rest);
    FixedFromSteps(tokens, low, 2, afterForward, afterBack, rest);
    StripJoined(fixed);
  }

  // ---------------------------------------------------------------------------
  // A leading marker
  // ---------------------------------------------------------------------------

  const LeadingBoxTokens: seq<string> := ["Box", "12", "Main", "St"]
  const LeadingBoxLowered: seq<string> := ["box", "12", "main", "st"]
  const LeadingBoxAfterForward: seq<string> := ["box", "main", "st"]
  const LeadingBoxRest: seq<string> := ["main", "st"]
  const LeadingBoxFixed: seq<string> := ["main", "st"]

  lemma LeadingBoxLowerCase()
    ensures forall i :: 0 <= i < |LeadingBoxTokens| ==> ' ' !in LeadingBoxTokens[i]
    ensures LowerAll(LeadingBoxTokens) == LeadingBoxLowered
  {
    assert Lower("12") == "12";
    assert Lower("Box") == "box";
    assert Lower("Main") == "main";
    assert Lower("St") == "st";
  }

  lemma LeadingBoxForwardFacts()
    ensures LeadingBoxLowered[0] == BoxMarker && BoxMarker !in LeadingBoxLowered[..0]
    ensures IsAlnum(LeadingBoxLowered[1]) && LeadingBoxLowered[1] !in LeadingBoxLowered[..1]
    ensures LeadingBoxLowered[..1] + LeadingBoxLowered[2..] == LeadingBoxAfterForward
  {
  }

  lemma LeadingBoxScanFacts()
    ensures LeadingBoxAfterForward[..0] == []
  {
  }

  lemma LeadingBoxMarkerFacts()
    ensures LeadingBoxAfterForward[0] == BoxMarker && BoxMarker !in LeadingBoxAfterForward[..0]
    ensures LeadingBoxAfterForward[..0] + LeadingBoxAfterForward[1..] == LeadingBoxRest
    ensures LeadingBoxRest == LeadingBoxFixed
    ensures |LeadingBoxFixed| > 0 && forall i :: 0 <= i < |LeadingBoxFixed| ==> LeadingBoxFixed[i] != ""
    ensures !IsSpace(LeadingBoxFixed[0][0]) && !IsSpace(LeadingBoxFixed[1][1])
  {
  }

  /** The steps of LeadingBox, on named values. */
  lemma LeadingBoxSteps(tokens: seq<string>, fixed: seq<string>)
    returns (low: seq<string>, afterForward: seq<string>, snapshot: seq<string>, afterBack: seq<string>, rest: seq<string>)
    requires tokens == LeadingBoxTokens && fixed == LeadingBoxFixed
    ensures afterBack == afterForward
    ensures forall i :: 0 <= i < |tokens| ==> ' ' !in tokens[i]
    ensures LowerAll(tokens) == low
    ensures low[0] == BoxMarker && BoxMarker !in low[..0]
    ensures IsAlnum(low[1]) && low[1] !in low[..1]
    ensures low[..1] + low[2..] == afterForward
    ensures afterForward[..0] == snapshot
    ensures afterBack[0] == BoxMarker && BoxMarker !in afterBack[..0]
    ensures afterBack[..0] + afterBack[1..] == rest
    ensures rest == fixed
    ensures |fixed| > 0 && forall i :: 0 <= i < |fixed| ==> fixed[i] != ""
    ensures !IsSpace(fixed[0][0]) && !IsSpace(fixed[|fixed| - 1][|fixed[|fixed| - 1]| - 1])
  {
    low, afterForward, snapshot := LeadingBoxLowered, LeadingBoxAfterForward, [];
    afterBack := afterForward;
    rest := LeadingBoxRest;
    LeadingBoxLowerCase();
    LeadingBoxForwardFacts();
    LeadingBoxScanFacts();
    LeadingBoxMarkerFacts();
  }

  /** "Box 12 Main St" is fixed to "main st": a marker in first position is not skipped. */
  lemma LeadingBox(tokens: seq<string>, fixed: seq<string>)
    requires tokens == LeadingBoxTokens && fixed == LeadingBoxFixed
    ensures Normalize(Join(' ', tokens), BoxMarker) == Fixed(Join(' ', fixed))
  {
    var low, afterForward, snapshot, afterBack, rest := LeadingBoxSteps(tokens, fixed);
    ForwardRemoves(low, 0, 1, afterForward);
    ScanStops(afterBack, snapshot);
    RemoveAt(afterBack, BoxMarker, 0, rest);
    FixedFromSteps(tokens, low, 0, afterForward, afterBack, rest);
    StripJoined(fixed);
  }

  // ---------------------------------------------------------------------------
  // A box number that also occurs earlier
  // ---------------------------------------------------------------------------

  const RepeatedNumberTokens: seq<string> := ["5", "P", "O", "Box", "5"]
  const RepeatedNumberLowered: seq<string> := ["5", "p", "o", "box", "5"]
  const RepeatedNumberAfterForward: seq<string> := ["p", "o", "box", "5"]
  const RepeatedNumberRest: seq<string> := ["p", "o", "5"]
  const RepeatedNumberFixed: seq<string> := ["p", "o", "5"]

  lemma RepeatedNumberLowerCase()
    ensures forall i :: 0 <= i < |RepeatedNumberTokens| ==> ' ' !in RepeatedNumberTokens[i]
    ensures LowerAll(RepeatedNumberTokens) == RepeatedNumberLowered
  {
    assert Lower("5") == "5";
    assert Lower("Box") == "box";
    assert Lower("O") == "o";
    assert Lower("P") == "p";
  }

  lemma RepeatedNumberForwardFacts()
    ensures RepeatedNumberLowered[3] == BoxMarker && BoxMarker !in RepeatedNumberLowered[..3]
    ensures IsAlnum(RepeatedNumberLowered[4]) && RepeatedNumberLowered[0] == RepeatedNumberLowered[4] && RepeatedNumberLowered[4] !in RepeatedNumberLowered[..0]
    ensures RepeatedNumberLowered[..0] + RepeatedNumberLowered[1..] == RepeatedNumberAfterForward
  {
  }

  lemma RepeatedNumberScanFacts()
    ensures RepeatedNumberAfterForward[..3] == ["p", "o", "box"]
    ensures "box" !in PoPrefixes
  {
  }

  lemma RepeatedNumberMarkerFacts()
    ensures RepeatedNumberAfterForward[2] == BoxMarker && BoxMarker !in RepeatedNumberAfterForward[..2]
    ensures RepeatedNumberAfterForward[..2] + RepeatedNumberAfterForward[3..] == RepeatedNumberRest
    ensures RepeatedNumberRest == RepeatedNumberFixed
    ensures |RepeatedNumberFixed| > 0 && forall i :: 0 <= i < |RepeatedNumberFixed| ==> RepeatedNumberFixed[i] != ""
    ensures !IsSpace(RepeatedNumberFixed[0][0]) && !IsSpace(RepeatedNumberFixed[2][0])
  {
  }

  /** The steps of RepeatedNumber, on named values. */
  lemma RepeatedNumberSteps(tokens: seq<string>, fixed: seq<string>)
    returns (low: seq<string>, afterForward: seq<string>, snapshot: seq<string>, afterBack: seq<string>, rest: seq<string>)
    requires tokens == RepeatedNumberTokens && fixed == RepeatedNumberFixed
    ensures afterBack == afterForward
    ensures forall i :: 0 <= i < |tokens| ==> ' ' !in tokens[i]
    ensures LowerAll(tokens) == low
    ensures low[3] == BoxMarker && BoxMarker !in low[..3]
    ensures IsAlnum(low[4]) && low[0] == low[4] && low[4] !in low[..0]
    ensures low[..0] + low[1..] == afterForward
    ensures afterForward[..3] == snapshot
    ensures snapshot[2] !in PoPrefixes
    ensures afterBack[2] == BoxMarker && BoxMarker !in afterBack[..2]
    ensures afterBack[..2] + afterBack[3..] == rest
    ensures rest == fixed
    ensures |fixed| > 0 && forall i :: 0 <= i < |fixed| ==> fixed[i] != ""
    ensures !IsSpace(fixed[0][0]) && !IsSpace(fixed[|fixed| - 1][|fixed[|fixed| - 1]| - 1])
  {
    low, afterForward, snapshot := RepeatedNumberLowered, RepeatedNumberAfterForward, ["p", "o", "box"];
    afterBack := afterForward;
    rest := RepeatedNumberRest;
    RepeatedNumberLowerCase();
    RepeatedNumberForwardFacts();
    RepeatedNumberScanFacts();
    RepeatedNumberMarkerFacts();
  }

  /** "5 P O Box 5" is fixed to "p o 5": `list.remove` deletes the first "5" instead of the box number, the snapshot taken afterwards ends with the marker itself, so the scan stops at once and "p" and "o" stay. */
  lemma RepeatedNumber(tokens: seq<string>, fixed: seq<string>)
    requires tokens == RepeatedNumberTokens && fixed == RepeatedNumberFixed
    ensures Normalize(Join(' ', tokens), BoxMarker) == Fixed(Join(' ', fixed))
  {
    var low, afterForward, snapshot, afterBack, rest := RepeatedNumberSteps(tokens, fixed);
    ForwardRemoves(low, 3, 0, afterForward);
    ScanStops(afterBack, snapshot);
    RemoveAt(afterBack, BoxMarker, 2, rest);
    FixedFromSteps(tokens, low, 3, afterForward, afterBack, rest);
    StripJoined(fixed);
  }

  // A field that ends with the marker is skipped (line 215): "PO Box".

  lemma TrailingBoxTokens()
    ensures forall i :: 0 <= i < 2 ==> ' ' !in ["PO", "Box"][i]
    ensures LowerAll(["PO", "Box"]) == ["po", "box"]
    ensures ["po", "box"][1] == BoxMarker && BoxMarker !in ["po", "box"][..1]
  {
    assert Lower("PO") == "po";
    assert Lower("Box") == "box";
  }

  lemma TrailingBox(tokens: seq<string>)
    requires tokens == ["PO", "Box"]
    ensures Normalize(Join(' ', tokens), BoxMarker) == Unfixed(MarkerLast)
  {
    var low := ["po", "box"];
    TrailingBoxTokens();
    SplitJoin(tokens, ' ');
    assert Tokens(Join(' ', tokens)) == low;
    IndexOfAt(low, 1);
  }
}
