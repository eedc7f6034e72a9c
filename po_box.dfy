/** The per-address rewriting inside `processing.ProcessPOBOX`
    (address_parser.py, lines 207-231): the street-address field is
    lower-cased and split on single spaces; the first token equal to the
    marker (`box`) is located; the token after it is dropped when it is
    alphanumeric (the box number); the P.O. prefix tokens just before the
    marker are dropped, scanning right to left; the marker is dropped; and
    what is left is joined with single spaces and stripped.

    Token deletion follows Python's `list.remove`, which deletes the first
    element equal to its argument anywhere in the list, not the element at
    the scanned position. */
module PoBox {
  import opened PyText

  /** The tokens that the backward scan strips before the marker (line 220). */
  const PoPrefixes: set<string> := {"p", "p.", "o", "o.", "po", "p.o."}

  /** The default marker, `anomaly='box'` (line 196). */
  const BoxMarker: string := "box"

  /** Why a record is left without a `fixedAddress`: the exceptions that
      lines 234-239 swallow. */
  datatype SkipReason =
    | NoMarker      // ValueError raised by `addressElements.index(anomaly)` (line 211)
    | MarkerLast    // IndexError raised by `addressElements[anomalyIndex+1]` (line 215)
    | RemoveFailed  // ValueError raised by `addressElements.remove(...)` (lines 223, 228)

  datatype Outcome<T> = Fixed(value: T) | Unfixed(reason: SkipReason)

  function LowerAll(ts: seq<string>): (r: seq<string>)
    ensures |r| == |ts|
    ensures forall i :: 0 <= i < |ts| ==> r[i] == Lower(ts[i])
  {
    seq(|ts|, i requires 0 <= i < |ts| => Lower(ts[i]))
  }

  /** `[x.lower() for x in address.split(" ")]` (line 207). */
  function Tokens(address: string): (r: seq<string>)
    ensures |r| >= 1
    ensures forall i :: 0 <= i < |r| ==> ' ' !in r[i] && HasNoUpper(r[i])
  {
    LowerKeepsNoSpace(Split(address, ' '));
    LowerAll(Split(address, ' '))
  }

  /** Lower-casing keeps a token free of spaces and leaves no capital. */
  lemma LowerKeepsNoSpace(ts: seq<string>)
    requires forall i :: 0 <= i < |ts| ==> ' ' !in ts[i]
    ensures forall i :: 0 <= i < |ts| ==> ' ' !in LowerAll(ts)[i] && HasNoUpper(LowerAll(ts)[i])
  {
    forall i, j | 0 <= i < |ts| && 0 <= j < |ts[i]|
      ensures LowerAll(ts)[i][j] != ' '
    {
      assert ts[i][j] != ' ';
    }
  }

  // ---------------------------------------------------------------------------
  // The three steps, as functions on the token list
  // ---------------------------------------------------------------------------

  /** Lines 215-216: with the marker at `k`, the token after it is removed
      from the list when it is alphanumeric. `list.remove` deletes its first
      occurrence, which is at `k + 1` only when it does not occur earlier. */
  function ForwardStep(ts: seq<string>, k: nat): (r: seq<string>)
    requires k + 1 < |ts|
    ensures !IsAlnum(ts[k + 1]) ==> r == ts
    ensures IsAlnum(ts[k + 1]) ==> |r| == |ts| - 1
    ensures IsAlnum(ts[k + 1]) && ts[k + 1] !in ts[..k + 1] ==> r == ts[..k + 1] + ts[k + 2..]
    ensures IsAlnum(ts[k + 1]) ==> var j := IndexOf(ts, ts[k + 1]).value;
      j <= k + 1 && ts[j] == ts[k + 1] && r == ts[..j] + ts[j + 1..]
  {
    if IsAlnum(ts[k + 1]) then
      assert ts[k + 1] !in ts[..k + 1] ==> IndexOf(ts, ts[k + 1]) == Some(k + 1) by {
        if ts[k + 1] !in ts[..k + 1] { IndexOfAt(ts, k + 1); }
      }
      Remove(ts, ts[k + 1]).value
    else ts
  }

  /** The number of tokens at the end of `snapshot` that the backward scan
      visits and removes: the longest run of P.O. prefix tokens it ends with. */
  function PrefixRun(snapshot: seq<string>): (n: nat)
    ensures n <= |snapshot|
    ensures forall i :: |snapshot| - n <= i < |snapshot| ==> snapshot[i] in PoPrefixes
    ensures n < |snapshot| ==> snapshot[|snapshot| - n - 1] !in PoPrefixes
    decreases |snapshot|
  {
    if |snapshot| == 0 || snapshot[|snapshot| - 1] !in PoPrefixes then 0
    else PrefixRun(snapshot[..|snapshot| - 1]) + 1
  }

  /** Lines 219-226: the tokens of `snapshot` are visited from the last to
      the first; each P.O. prefix token is removed from `ts` with
      `list.remove`, and the first other token ends the scan. None stands for
      the ValueError `list.remove` would raise. */
  function BackScan(ts: seq<string>, snapshot: seq<string>): (r: Option<seq<string>>)
    ensures r.Some? ==> |r.value| + PrefixRun(snapshot) == |ts|
    decreases |snapshot|
  {
    if |snapshot| == 0 then Some(ts)
    else
      var t := snapshot[|snapshot| - 1];
      if t !in PoPrefixes then Some(ts)
      else
        match Remove(ts, t)
        case None => None
        case Some(ts') => BackScan(ts', snapshot[..|snapshot| - 1])
  }

  /** Lines 219-228 once the forward step is done: the backward scan over
      the slice `afterForward[:k]`, then the removal of the marker. */
  function AfterForward(afterForward: seq<string>, k: nat, anomaly: string): (r: Outcome<seq<string>>)
    requires k <= |afterForward|
    ensures r.Unfixed? ==> r.reason == RemoveFailed
  {
    match BackScan(afterForward, afterForward[..k])
    case None => Unfixed(RemoveFailed)
    case Some(afterBack) =>
      match Remove(afterBack, anomaly)
      case None => Unfixed(RemoveFailed)
      case Some(rest) => Fixed(rest)
  }

  /** The token list `ProcessPOBOX` joins into `fixedAddress`, or why the
      record is skipped (lines 211-228). */
  function Reduce(ts: seq<string>, anomaly: string): (r: Outcome<seq<string>>)
    ensures r == Unfixed(NoMarker) <==> anomaly !in ts
    ensures r == Unfixed(MarkerLast) <==> anomaly in ts && IndexOf(ts, anomaly).value == |ts| - 1
  {
    match IndexOf(ts, anomaly)
    case None => Unfixed(NoMarker)
    case Some(k) =>
      if k + 1 >= |ts| then Unfixed(MarkerLast)
      else AfterForward(ForwardStep(ts, k), k, anomaly)
  }

  /** The value stored as `fixedAddress` (lines 229, 231), or why none is
      stored. */
  function Normalize(address: string, anomaly: string): (r: Outcome<string>)
    ensures r.Unfixed? <==> Reduce(Tokens(address), anomaly).Unfixed?
    ensures r.Unfixed? ==> r.reason == Reduce(Tokens(address), anomaly).reason
    ensures r.Fixed? ==> r.value == [] || (!IsSpace(r.value[0]) && !IsSpace(r.value[|r.value| - 1]))
  {
    match Reduce(Tokens(address), anomaly)
    case Unfixed(reason) => Unfixed(reason)
    case Fixed(rest) => Fixed(Strip(Join(' ', rest)))
  }

  // ---------------------------------------------------------------------------
  // The imperative model of lines 207-229
  // ---------------------------------------------------------------------------

  /** What the body of the loop in `ProcessPOBOX` computes for one address
      (lines 207-229). */
  method FixAddress(address: string, anomaly: string) returns (outcome: Outcome<string>)
    ensures outcome == Normalize(address, anomaly)
  {
    var addressElements := Tokens(address);
    var reduced := ReduceTokens(addressElements, anomaly);
    match reduced
    case Unfixed(reason) => outcome := Unfixed(reason);
    case Fixed(rest) => outcome := Fixed(Strip(Join(' ', rest)));
  }

  /** Lines 219-226: the backward `for` loop over the slice `snapshot`,
      taken once, removes P.O. prefix tokens from `addressElements` with
      `list.remove` until the first other token, where it breaks. None
      stands for the ValueError of `list.remove`. */
  method BackScanTokens(tokens: seq<string>, snapshot: seq<string>) returns (r: Option<seq<string>>)
    ensures r == BackScan(tokens, snapshot)
  {
    var addressElements := tokens;
    var j := |snapshot|;
    assert snapshot[..j] == snapshot;
    while j > 0
      invariant j <= |snapshot|
      invariant BackScan(addressElements, snapshot[..j]) == BackScan(tokens, snapshot)
      decreases j
    {
      var token := snapshot[j - 1];
      assert snapshot[..j][j - 1] == token && snapshot[..j][..j - 1] == snapshot[..j - 1];
      if token !in PoPrefixes {
        break;
      }
      var removed := Remove(addressElements, token);
      if removed.None? {
        return None;
      }
      addressElements := removed.value;
      j := j - 1;
    }
    r := Some(addressElements);
  }

  /** Lines 211-228: the list `addressElements` is changed step by step with
      `list.remove`. */
  method ReduceTokens(tokens: seq<string>, anomaly: string) returns (outcome: Outcome<seq<string>>)
    ensures outcome == Reduce(tokens, anomaly)
  {
    var addressElements := tokens;
    var found := IndexOf(addressElements, anomaly);
    if found.None? {
      return Unfixed(NoMarker);
    }
    var anomalyIndex := found.value;
    if anomalyIndex + 1 >= |addressElements| {
      return Unfixed(MarkerLast);
    }
    if IsAlnum(addressElements[anomalyIndex + 1]) {
      addressElements := Remove(addressElements, addressElements[anomalyIndex + 1]).value;
    }
    assert addressElements == ForwardStep(tokens, anomalyIndex);
    var scanned := BackScanTokens(addressElements, addressElements[..anomalyIndex]);
    if scanned.None? {
      return Unfixed(RemoveFailed);
    }
    var last := Remove(scanned.value, anomaly);
    if last.None? {
      return Unfixed(RemoveFailed);
    }
    outcome := Fixed(last.value);
  }

  // ---------------------------------------------------------------------------
  // What the three steps remove
  // ---------------------------------------------------------------------------

  /** The forward step takes away one copy of the box number when it is
      alphanumeric, and nothing otherwise. */
  lemma ForwardStepMultiset(ts: seq<string>, k: nat)
    requires k + 1 < |ts|
    ensures multiset(ForwardStep(ts, k)) ==
      multiset(ts) - (if IsAlnum(ts[k + 1]) then multiset{ts[k + 1]} else multiset{})
  {
    if IsAlnum(ts[k + 1]) {
      RemoveMultiset(ts, ts[k + 1]);
    }
  }

  /** The backward scan cannot fail when the snapshot is drawn from the
      list: each visited token still has a copy left to remove. */
  lemma {:induction false} BackScanSucceeds(ts: seq<string>, snapshot: seq<string>)
    requires multiset(snapshot) <= multiset(ts)
    ensures BackScan(ts, snapshot).Some?
    decreases |snapshot|
  {
    var n := |snapshot|;
    if n > 0 && snapshot[n - 1] in PoPrefixes {
      LastIsDrawn(snapshot, ts);
      var ts', init := BackScanStep(ts, snapshot);
      SubMultisetStep(snapshot, ts, ts');
      BackScanSucceeds(ts', init);
    }
  }

  /** The backward scan takes away one copy of each token in its run of
      P.O. prefix tokens and keeps every other token. */
  lemma {:induction false} BackScanMultiset(ts: seq<string>, snapshot: seq<string>)
    requires BackScan(ts, snapshot).Some?
    ensures multiset(BackScan(ts, snapshot).value) ==
      multiset(ts) - multiset(snapshot[|snapshot| - PrefixRun(snapshot)..])
    decreases |snapshot|
  {
    if |snapshot| == 0 || snapshot[|snapshot| - 1] !in PoPrefixes {
      BackScanMultisetStop(ts, snapshot);
    } else {
      BackScanFailsOnMissing(ts, snapshot);
      var ts', init := BackScanStep(ts, snapshot);
      BackScanMultiset(ts', init);
      BackScanMultisetStep(ts, snapshot, ts', init);
    }
  }

  /** The base case of `BackScanMultiset`: the scan stops at once. */
  lemma BackScanMultisetStop(ts: seq<string>, snapshot: seq<string>)
    requires |snapshot| == 0 || snapshot[|snapshot| - 1] !in PoPrefixes
    ensures BackScan(ts, snapshot) == Some(ts)
    ensures snapshot[|snapshot| - PrefixRun(snapshot)..] == []
  {
  }

  /** The inductive step of `BackScanMultiset`: one more P.O. prefix token
      removed. */
  lemma BackScanMultisetStep(ts: seq<string>, snapshot: seq<string>, ts': seq<string>, init: seq<string>)
    requires |snapshot| > 0 && init == snapshot[..|snapshot| - 1]
    requires BackScan(ts, snapshot) == BackScan(ts', init) && BackScan(ts', init).Some?
    requires multiset(ts') == multiset(ts) - multiset{snapshot[|snapshot| - 1]}
    requires PrefixRun(snapshot) == PrefixRun(init) + 1
    requires multiset(BackScan(ts', init).value) == multiset(ts') - multiset(init[|init| - PrefixRun(init)..])
    ensures multiset(BackScan(ts, snapshot).value) ==
      multiset(ts) - multiset(snapshot[|snapshot| - PrefixRun(snapshot)..])
  {
    var m := |snapshot| - PrefixRun(snapshot);
    assert |init| - PrefixRun(init) == m;
    var r := BackScan(ts', init).value;
    RunStep(multiset(ts), multiset(ts'), multiset(r), snapshot, m);
  }

  /** Nothing is invented: the kept tokens, with one copy of the marker,
      are drawn from the input token list. */
  lemma ReduceMultiset(ts: seq<string>, anomaly: string)
    requires Reduce(ts, anomaly).Fixed?
    ensures multiset(Reduce(ts, anomaly).value) + multiset{anomaly} <= multiset(ts)
  {
    var k := IndexOf(ts, anomaly).value;
    var afterForward := ForwardStep(ts, k);
    ForwardStepMultiset(ts, k);
    BackScanMultiset(afterForward, afterForward[..k]);
    var afterBack := BackScan(afterForward, afterForward[..k]).value;
    RemoveMultiset(afterBack, anomaly);
  }

  /** `fixedAddress` holds no capital letter: it is made of lower-cased
      tokens joined by spaces (lines 207, 229). */
  lemma NormalizedIsLowerCase(address: string, anomaly: string)
    requires Normalize(address, anomaly).Fixed?
    ensures HasNoUpper(Normalize(address, anomaly).value)
  {
    var ts := Tokens(address);
    var rest := Reduce(ts, anomaly).value;
    ReduceMultiset(ts, anomaly);
    forall t | t in rest ensures HasNoUpper(t) {
      assert t in multiset(rest);
      assert t in multiset(ts);
    }
    JoinHasNoUpper(' ', rest);
  }

  // ---------------------------------------------------------------------------
  // When a record is skipped
  // ---------------------------------------------------------------------------

  /** With a marker that is not itself a P.O. prefix token, neither
      `list.remove` on line 223 nor the one on line 228 can raise: the
      backward scan only removes tokens of the snapshot, which is a prefix of
      the list, and it never removes the marker. */
  lemma NeverRemoveFailed(ts: seq<string>, anomaly: string)
    requires anomaly !in PoPrefixes
    ensures Reduce(ts, anomaly) != Unfixed(RemoveFailed)
  {
    if anomaly in ts && IndexOf(ts, anomaly).value + 1 < |ts| {
      var k := IndexOf(ts, anomaly).value;
      var afterForward := ForwardStep(ts, k);
      ForwardStepMultiset(ts, k);
      MarkerSurvivesForwardStep(ts, k, afterForward);
      var snapshot := afterForward[..k];
      PrefixIsDrawn(afterForward, k);
      BackScanSucceeds(afterForward, snapshot);
      BackScanMultiset(afterForward, snapshot);
      RunHoldsNoMarker(snapshot, anomaly);
      var afterBack := BackScan(afterForward, snapshot).value;
      MarkerSurvivesBackScan(afterForward, afterBack, snapshot[|snapshot| - PrefixRun(snapshot)..], anomaly);
      ReduceFixed(ts, anomaly, afterBack);
    }
  }

  /** A record is skipped exactly when its token list has no marker, or
      when its first marker is its last token (lines 211, 215, 234-239). A
      leading marker with a token after it is not skipped. */
  lemma {:induction false} SkipCases(address: string, anomaly: string)
    requires anomaly !in PoPrefixes
    ensures var ts := Tokens(address);
      Normalize(address, anomaly).Unfixed? <==>
        anomaly !in ts || IndexOf(ts, anomaly).value == |ts| - 1
  {
    NeverRemoveFailed(Tokens(address), anomaly);
  }

  // ---------------------------------------------------------------------------
  // What is removed, by position, when no token occurs twice
  // ---------------------------------------------------------------------------

  /** When every token the scan removes occurs nowhere before its own
      position, the scan deletes exactly its run of P.O. prefix tokens, and
      the token that stopped it and everything before that stay in place. */
  lemma {:induction false} BackScanByPosition(snapshot: seq<string>, tail: seq<string>)
    requires forall i :: |snapshot| - PrefixRun(snapshot) <= i < |snapshot| ==> FirstCopy(snapshot, i)
    ensures BackScan(snapshot + tail, snapshot) == Some(snapshot[..|snapshot| - PrefixRun(snapshot)] + tail)
    decreases |snapshot|
  {
    var n := |snapshot|;
    if n == 0 || snapshot[n - 1] !in PoPrefixes {
      assert snapshot[..n] == snapshot;
    } else {
      var init := ByPositionStep(snapshot, tail);
      BackScanByPosition(init, tail);
    }
  }

  /** When neither the box number nor any removed P.O. prefix token occurs
      earlier in the list, the kept tokens are those before the run of P.O.
      prefix tokens followed by those after the marker and its box number:
      `list.remove` then removes exactly the scanned element. */
  lemma {:induction false} ReduceByPosition(ts: seq<string>, anomaly: string, k: nat)
    requires IndexOf(ts, anomaly) == Some(k) && k + 1 < |ts|
    requires IsAlnum(ts[k + 1]) ==> FirstCopy(ts, k + 1)
    requires forall i :: k - PrefixRun(ts[..k]) <= i < k ==> FirstCopy(ts, i)
    ensures var skip := if IsAlnum(ts[k + 1]) then 2 else 1;
      Reduce(ts, anomaly) == Fixed(ts[..k - PrefixRun(ts[..k])] + ts[k + skip..])
  {
    ReduceAtMarker(ts, anomaly, k);
    ForwardStepByPosition(ts, k, anomaly);
    if IsAlnum(ts[k + 1]) {
      PrefixAfterForwardByPosition(ts, k, ts[k + 2..], anomaly);
    } else {
      PrefixAfterForwardByPosition(ts, k, ts[k + 1..], anomaly);
    }
  }

  /** `AfterForwardByPosition` for the snapshot `ts[..k]`. */
  lemma {:induction false} PrefixAfterForwardByPosition(ts: seq<string>, k: nat, rest: seq<string>, anomaly: string)
    requires k <= |ts| && anomaly !in ts[..k]
    requires forall i :: k - PrefixRun(ts[..k]) <= i < k ==> FirstCopy(ts, i)
    ensures AfterForward(ts[..k] + ([anomaly] + rest), k, anomaly) == Fixed(ts[..k - PrefixRun(ts[..k])] + rest)
  {
    PrefixKeepsFirstOccurrences(ts, k, PrefixRun(ts[..k]));
    AfterForwardByPosition(ts[..k], rest, anomaly);
    PrefixOfPrefix(ts, k, k - PrefixRun(ts[..k]));
  }

  // ---------------------------------------------------------------------------
  // Proof steps
  // ---------------------------------------------------------------------------

  lemma LastIsDrawn(snapshot: seq<string>, ts: seq<string>)
    requires |snapshot| > 0 && multiset(snapshot) <= multiset(ts)
    ensures snapshot[|snapshot| - 1] in ts
  {
    assert snapshot[|snapshot| - 1] in multiset(snapshot);
  }

  /** One round of the backward scan over a P.O. prefix token that is in
      the list. */
  lemma BackScanStep(ts: seq<string>, snapshot: seq<string>) returns (ts': seq<string>, init: seq<string>)
    requires |snapshot| > 0 && snapshot[|snapshot| - 1] in PoPrefixes && snapshot[|snapshot| - 1] in ts
    ensures init == snapshot[..|snapshot| - 1]
    ensures BackScan(ts, snapshot) == BackScan(ts', init)
    ensures multiset(ts') == multiset(ts) - multiset{snapshot[|snapshot| - 1]}
    ensures PrefixRun(snapshot) == PrefixRun(init) + 1
  {
    init := snapshot[..|snapshot| - 1];
    ts' := Remove(ts, snapshot[|snapshot| - 1]).value;
    RemoveMultiset(ts, snapshot[|snapshot| - 1]);
  }

  lemma BackScanFailsOnMissing(ts: seq<string>, snapshot: seq<string>)
    requires |snapshot| > 0 && snapshot[|snapshot| - 1] in PoPrefixes
    requires BackScan(ts, snapshot).Some?
    ensures snapshot[|snapshot| - 1] in ts
  {
  }

  lemma SubMultisetStep(snapshot: seq<string>, ts: seq<string>, ts': seq<string>)
    requires |snapshot| > 0 && multiset(snapshot) <= multiset(ts)
    requires multiset(ts') == multiset(ts) - multiset{snapshot[|snapshot| - 1]}
    ensures multiset(snapshot[..|snapshot| - 1]) <= multiset(ts')
  {
    assert snapshot == snapshot[..|snapshot| - 1] + [snapshot[|snapshot| - 1]];
  }

  lemma RunStep(ts: multiset<string>, ts': multiset<string>, r: multiset<string>, snapshot: seq<string>, m: nat)
    requires m < |snapshot|
    requires ts' == ts - multiset{snapshot[|snapshot| - 1]}
    requires r == ts' - multiset(snapshot[..|snapshot| - 1][m..])
    ensures r == ts - multiset(snapshot[m..])
  {
    assert snapshot[m..] == snapshot[..|snapshot| - 1][m..] + [snapshot[|snapshot| - 1]];
    MultisetDiffDiff(ts, multiset{snapshot[|snapshot| - 1]}, multiset(snapshot[..|snapshot| - 1][m..]));
  }

  /** Two adjacent positions hold two copies when they hold equal tokens. */
  lemma AdjacentCopies(ts: seq<string>, k: nat)
    requires k + 1 < |ts|
    ensures multiset(ts)[ts[k]] >= if ts[k + 1] == ts[k] then 2 else 1
  {
    assert ts == ts[..k] + [ts[k], ts[k + 1]] + ts[k + 2..];
  }

  lemma MarkerSurvivesForwardStep(ts: seq<string>, k: nat, afterForward: seq<string>)
    requires k + 1 < |ts|
    requires multiset(afterForward) ==
      multiset(ts) - (if IsAlnum(ts[k + 1]) then multiset{ts[k + 1]} else multiset{})
    ensures ts[k] in multiset(afterForward)
  {
    AdjacentCopies(ts, k);
  }

  lemma PrefixIsDrawn(xs: seq<string>, k: nat)
    requires k <= |xs|
    ensures multiset(xs[..k]) <= multiset(xs)
  {
    assert xs == xs[..k] + xs[k..];
  }

  lemma RunHoldsNoMarker(snapshot: seq<string>, anomaly: string)
    requires anomaly !in PoPrefixes
    ensures anomaly !in multiset(snapshot[|snapshot| - PrefixRun(snapshot)..])
  {
  }

  lemma MarkerSurvivesBackScan(before: seq<string>, after: seq<string>, run: seq<string>, anomaly: string)
    requires anomaly in multiset(before) && anomaly !in multiset(run)
    requires multiset(after) == multiset(before) - multiset(run)
    ensures anomaly in after
  {
    assert anomaly in multiset(after);
  }

  /** A record is fixed once the backward scan succeeds and leaves the
      marker in the list. */
  lemma ReduceFixed(ts: seq<string>, anomaly: string, afterBack: seq<string>)
    requires anomaly in ts && IndexOf(ts, anomaly).value + 1 < |ts|
    requires var k := IndexOf(ts, anomaly).value;
      BackScan(ForwardStep(ts, k), ForwardStep(ts, k)[..k]) == Some(afterBack)
    requires anomaly in afterBack
    ensures Reduce(ts, anomaly) == Fixed(Remove(afterBack, anomaly).value)
  {
  }

  lemma ByPositionStep(snapshot: seq<string>, tail: seq<string>) returns (init: seq<string>)
    requires |snapshot| > 0 && snapshot[|snapshot| - 1] in PoPrefixes
    requires forall i :: |snapshot| - PrefixRun(snapshot) <= i < |snapshot| ==> FirstCopy(snapshot, i)
    ensures init == snapshot[..|snapshot| - 1]
    ensures BackScan(snapshot + tail, snapshot) == BackScan(init + tail, init)
    ensures forall i :: |init| - PrefixRun(init) <= i < |init| ==> FirstCopy(init, i)
    ensures init[..|init| - PrefixRun(init)] == snapshot[..|snapshot| - PrefixRun(snapshot)]
  {
    var n := |snapshot|;
    init := snapshot[..n - 1];
    var ts := snapshot + tail;
    assert ts[..n - 1] == init;
    assert FirstCopy(snapshot, n - 1);
    IndexOfAt(ts, n - 1);
    assert ts[n..] == tail;
    assert Remove(ts, snapshot[n - 1]) == Some(init + tail);
    forall i | |init| - PrefixRun(init) <= i < |init|
      ensures FirstCopy(init, i)
    {
      assert FirstCopy(snapshot, i);
      assert init[..i] == snapshot[..i];
    }
  }

  lemma ReduceAtMarker(ts: seq<string>, anomaly: string, k: nat)
    requires IndexOf(ts, anomaly) == Some(k) && k + 1 < |ts|
    ensures Reduce(ts, anomaly) == AfterForward(ForwardStep(ts, k), k, anomaly)
  {
  }

  lemma ForwardStepByPosition(ts: seq<string>, k: nat, anomaly: string)
    requires k + 1 < |ts| && ts[k] == anomaly
    requires IsAlnum(ts[k + 1]) ==> FirstCopy(ts, k + 1)
    ensures var skip := if IsAlnum(ts[k + 1]) then 2 else 1;
      ForwardStep(ts, k) == ts[..k] + ([anomaly] + ts[k + skip..])
    ensures ForwardStep(ts, k)[..k] == ts[..k]
  {
    if IsAlnum(ts[k + 1]) {
      assert ts[..k + 1] == ts[..k] + [anomaly];
      assert ForwardStep(ts, k) == ts[..k] + [anomaly] + ts[k + 2..];
    } else {
      assert ts == ts[..k] + ([anomaly] + ts[k + 1..]);
    }
  }

  lemma PrefixKeepsFirstOccurrences(ts: seq<string>, k: nat, run: nat)
    requires run <= k <= |ts|
    requires forall i :: k - run <= i < k ==> FirstCopy(ts, i)
    ensures forall i :: k - run <= i < k ==> FirstCopy(ts[..k], i)
  {
    forall i | k - run <= i < k ensures FirstCopy(ts[..k], i) {
      assert FirstCopy(ts, i);
      assert ts[..k][..i] == ts[..i];
    }
  }

  /** The backward scan and the removal of the marker on a list that is
      the snapshot, the marker and the rest, when the marker is not in the
      snapshot and the scanned tokens occur nowhere before their own
      positions. */
  lemma {:induction false} AfterForwardByPosition(snapshot: seq<string>, rest: seq<string>, anomaly: string)
    requires anomaly !in snapshot
    requires forall i :: |snapshot| - PrefixRun(snapshot) <= i < |snapshot| ==> FirstCopy(snapshot, i)
    ensures AfterForward(snapshot + ([anomaly] + rest), |snapshot|, anomaly) ==
      Fixed(snapshot[..|snapshot| - PrefixRun(snapshot)] + rest)
  {
    var tail := [anomaly] + rest;
    var ts := snapshot + tail;
    assert ts[..|snapshot|] == snapshot;
    BackScanByPosition(snapshot, tail);
    var kept := snapshot[..|snapshot| - PrefixRun(snapshot)];
    RemoveFirstCopy(kept, anomaly, rest);
  }

  /** `list.remove(x)` on a list whose first copy of `x` follows `kept`. */
  lemma RemoveFirstCopy<T>(kept: seq<T>, x: T, rest: seq<T>)
    requires x !in kept
    ensures Remove(kept + ([x] + rest), x) == Some(kept + rest)
  {
    AroundElement(kept, x, rest);
    IndexOfAt(kept + ([x] + rest), |kept|);
  }

  // ---------------------------------------------------------------------------
  // Helpers
  // ---------------------------------------------------------------------------

  /** The element at `i` is the first copy of its value in `s`. */
  predicate FirstCopy<T(==)>(s: seq<T>, i: int) { 0 <= i < |s| && s[i] !in s[..i] }

  lemma PrefixOfPrefix<T>(s: seq<T>, k: nat, m: nat)
    requires m <= k <= |s|
    ensures s[..k][..m] == s[..m]
  {
  }

  lemma AroundElement<T>(a: seq<T>, x: T, b: seq<T>)
    ensures (a + ([x] + b))[..|a|] == a
    ensures (a + ([x] + b))[|a|] == x
    ensures (a + ([x] + b))[|a| + 1..] == b
  {
  }

  lemma MultisetDiffDiff<T>(a: multiset<T>, b: multiset<T>, c: multiset<T>)
    ensures a - b - c == a - (c + b)
  {
    forall x ensures (a - b - c)[x] == (a - (c + b))[x] {
    }
  }

  lemma {:induction false} JoinHasNoUpper(sep: char, ts: seq<string>)
    requires !IsUpperChar(sep)
    requires forall t :: t in ts ==> HasNoUpper(t)
    ensures HasNoUpper(Join(sep, ts))
    decreases |ts|
  {
    if |ts| > 1 {
      JoinHasNoUpper(sep, ts[1..]);
      assert ts[0] in ts;
    }
  }
}
