/**
 * The contract every paoding segmentation strategy (a "knife") must keep.
 *
 * A knife is asked, position by position, what the character at a position of
 * a beef (the characters currently available) is to it: LIMIT, ASSIGNED or
 * POINT. When the answer at the anchor itself is ASSIGNED the knife may
 * dissect the beef from there; it tells a collector about the words it finds
 * and returns a non-zero signed integer: positive, the end of what it
 * dissected; negative, the end of what it dissected before it ran out of
 * characters, after which the beef is rebuilt from the unconsumed tail and
 * newly read characters.
 */
module KnifeProtocol {
  import opened Wrappers

  /** The characters available for segmentation: part of a text, or all of it. */
  type Beef = seq<char>

  // ---------------------------------------------------------------------------
  // Character dispositions
  // ---------------------------------------------------------------------------

  /** Not a character of this knife. */
  const LIMIT: int := -1
  /** A character of this knife. */
  const ASSIGNED: int := 1
  /** A character of this knife, but the next knife starts at the first POINT. */
  const POINT: int := 0

  datatype Disposition = Limit | Assigned | Point

  /** The integer by which the interface reports a disposition. */
  function Code(d: Disposition): (c: int)
    ensures LIMIT <= c <= ASSIGNED
  {
    match d
    case Limit => LIMIT
    case Assigned => ASSIGNED
    case Point => POINT
  }

  /** The disposition an integer answer of `assignable` stands for, if any. */
  function DispositionOf(c: int): (d: Option<Disposition>)
    ensures d.Some? <==> LIMIT <= c <= ASSIGNED
    ensures d.Some? ==> Code(d.value) == c
  {
    if c == LIMIT then Some(Limit)
    else if c == ASSIGNED then Some(Assigned)
    else if c == POINT then Some(Point)
    else None
  }

  /** The three codes are distinct. */
  lemma CodesDistinct(d: Disposition, e: Disposition)
    ensures Code(d) == Code(e) <==> d == e
  {
  }

  /** Encoding a disposition and reading it back gives the disposition. */
  lemma DispositionRoundTrip(d: Disposition)
    ensures DispositionOf(Code(d)) == Some(d)
  {
  }

  // ---------------------------------------------------------------------------
  // Where the next knife starts
  // ---------------------------------------------------------------------------

  /**
   * Given the dispositions of the positions scanned from the anchor on, the
   * position (relative to the anchor) where the next knife starts: the first
   * one that is not ASSIGNED, or the end of the scan.
   */
  function NextStart(ds: seq<Disposition>): (k: nat)
    ensures k <= |ds|
    ensures forall j :: 0 <= j < k ==> ds[j] == Assigned
    ensures k < |ds| ==> ds[k] != Assigned
  {
    if ds == [] || ds[0] != Assigned then 0 else 1 + NextStart(ds[1..])
  }

  /** The index of the first occurrence of `d` in `ds`, if there is one. */
  function IndexOf(ds: seq<Disposition>, d: Disposition): (r: Option<nat>)
    ensures r.Some? ==> r.value < |ds| && ds[r.value] == d
    ensures r.Some? ==> forall j :: 0 <= j < r.value ==> ds[j] != d
    ensures r.None? <==> d !in ds
  {
    if ds == [] then None
    else if ds[0] == d then Some(0)
    else match IndexOf(ds[1..], d)
      case None => None
      case Some(i) => Some(i + 1)
  }

  /** How far a knife's characters reach: up to its first LIMIT, or to the end. */
  function ScanLength(ds: seq<Disposition>): nat
  {
    match IndexOf(ds, Limit)
    case Some(i) => i
    case None => |ds|
  }

  /**
   * The rule as the interface documents it: the next knife starts at the
   * first POINT; when there is no POINT, at the LIMIT (or the end of the beef).
   */
  function RuleStart(ds: seq<Disposition>): nat
  {
    var n := ScanLength(ds);
    match IndexOf(ds[..n], Point)
    case Some(p) => p
    case None => n
  }

  /** The first-non-ASSIGNED position is the documented POINT-else-LIMIT start. */
  lemma NextStartFollowsRule(ds: seq<Disposition>)
    ensures NextStart(ds) == RuleStart(ds)
  {
  }

  // ---------------------------------------------------------------------------
  // A knife
  // ---------------------------------------------------------------------------

  /** A word reported to the collector: the beef's characters in [start, end). */
  datatype Span = Span(start: nat, end: nat)

  /** What one call of `dissect` does: the words it reports, and its result. */
  datatype Dissection = Dissection(spans: seq<Span>, result: int)

  /**
   * A knife, as the pair of its two operations. `assignable(beef, history,
   * index)` answers a disposition code; `dissect(beef, offset)` dissects
   * from `offset` on.
   */
  datatype Knife = Knife(
    assignable: (Beef, nat, nat) -> int,
    dissect: (Beef, nat) -> Dissection)

  /** Ways a knife or its caller can break the interface's contract. */
  datatype Violation =
    | NotAssigned     // dissect offered at a position that was not ASSIGNED
    | BadDisposition  // assignable answered a code that is no disposition
    | ZeroResult      // dissect returned 0
    | Backward        // |result| < offset
    | BeyondBeef      // a negative result past the end of the beef
    | SpanOutside     // a word outside the stretch the result says was dissected

  /**
   * The dispositions `k` gives to positions `index`, `index + 1`, ... of
   * `beef` for the anchor `history`, or None when one answer is no
   * disposition. The interface asks `index >= history` of its callers.
   */
  function Survey(k: Knife, beef: Beef, history: nat, index: nat): (ds: Option<seq<Disposition>>)
    requires history <= index <= |beef|
    decreases |beef| - index
    ensures ds.Some? ==> |ds.value| == |beef| - index
    ensures ds.Some? ==> forall j :: index <= j < |beef| ==>
      Code(ds.value[j - index]) == k.assignable(beef, history, j)
    ensures ds.None? ==>
      exists j :: index <= j < |beef| && DispositionOf(k.assignable(beef, history, j)).None?
  {
    if index == |beef| then Some([])
    else match DispositionOf(k.assignable(beef, history, index))
      case None => None
      case Some(d) =>
        match Survey(k, beef, history, index + 1)
        case None => None
        case Some(rest) => Some([d] + rest)
  }

  /**
   * The position where the knife after `k` starts, scanning `beef` from
   * `index` on for the anchor `history`: the scan goes on while `k` answers
   * ASSIGNED and stops at the first POINT or LIMIT (or the end of the beef).
   * It fails only when an answer met on the way is no disposition.
   */
  function NextKnifeStart(k: Knife, beef: Beef, history: nat, index: nat): (s: Result<nat, Violation>)
    requires history <= index <= |beef|
    decreases |beef| - index
    ensures s.Ok? ==> index <= s.value <= |beef|
    ensures s.Ok? ==> forall j :: index <= j < s.value ==>
      k.assignable(beef, history, j) == ASSIGNED
    ensures s.Ok? && s.value < |beef| ==>
      k.assignable(beef, history, s.value) in {POINT, LIMIT}
    ensures s.Err? <==>
      exists j :: index <= j < |beef| && DispositionOf(k.assignable(beef, history, j)).None? &&
        forall i :: index <= i < j ==> k.assignable(beef, history, i) == ASSIGNED
    ensures s.Err? ==> s.error == BadDisposition
  {
    if index == |beef| then Ok(index)
    else
      var c := k.assignable(beef, history, index);
      if c == ASSIGNED then NextKnifeStart(k, beef, history, index + 1)
      else if c == POINT || c == LIMIT then Ok(index)
      else Err(BadDisposition)
  }

  /** `NextStart` is the only position before which all are ASSIGNED and at which none is. */
  lemma NextStartUnique(ds: seq<Disposition>, m: nat)
    requires m <= |ds|
    requires forall j :: 0 <= j < m ==> ds[j] == Assigned
    requires m < |ds| ==> ds[m] != Assigned
    ensures m == NextStart(ds)
  {
  }

  /** When every answer from the anchor on is a disposition, the scan does not fail. */
  lemma SurveyedScanSucceeds(k: Knife, beef: Beef, history: nat)
    requires history <= |beef|
    requires Survey(k, beef, history, history).Some?
    ensures NextKnifeStart(k, beef, history, history).Ok?
  {
  }

  /** When every answer from the anchor on is a disposition, the scan stops where `NextStart` does. */
  lemma SurveyedScanStops(k: Knife, beef: Beef, history: nat)
    requires history <= |beef|
    requires Survey(k, beef, history, history).Some?
    ensures NextKnifeStart(k, beef, history, history) ==
      Ok(history + NextStart(Survey(k, beef, history, history).value))
  {
    var ds := Survey(k, beef, history, history).value;
    SurveyedScanSucceeds(k, beef, history);
    var s := NextKnifeStart(k, beef, history, history);
    var m := s.value - history;
    assert forall j :: 0 <= j < m ==> Code(ds[j]) == k.assignable(beef, history, history + j) == ASSIGNED;
    assert m < |ds| ==> Code(ds[m]) == k.assignable(beef, history, s.value) != ASSIGNED;
    NextStartUnique(ds, m);
  }

  /**
   * When every answer from the anchor on is a disposition, the scan starts
   * the next knife where the documented rule says, over those dispositions.
   */
  lemma NextKnifeStartFollowsRule(k: Knife, beef: Beef, history: nat)
    requires history <= |beef|
    requires Survey(k, beef, history, history).Some?
    ensures NextKnifeStart(k, beef, history, history) ==
      Ok(history + RuleStart(Survey(k, beef, history, history).value))
  {
    SurveyedScanStops(k, beef, history);
    NextStartFollowsRule(Survey(k, beef, history, history).value);
  }

  /** A knife that takes the position at its anchor does not hand it on. */
  lemma AssignedAnchorMovesOn(k: Knife, beef: Beef, history: nat)
    requires history < |beef|
    requires k.assignable(beef, history, history) == ASSIGNED
    ensures NextKnifeStart(k, beef, history, history).Ok? ==>
      NextKnifeStart(k, beef, history, history).value > history
  {
  }

  // ---------------------------------------------------------------------------
  // The result of dissect
  // ---------------------------------------------------------------------------

  /** A result of dissect: positive (Reached) or negative (Stalled), with its magnitude. */
  datatype Outcome = Reached(end: nat) | Stalled(end: nat)

  /** The signed integer by which dissect reports an outcome. */
  function ResultCode(o: Outcome): (r: int)
    ensures o.Reached? ==> r >= 0 && r == o.end
    ensures o.Stalled? ==> r <= 0 && -r == o.end
  {
    match o
    case Reached(e) => e
    case Stalled(e) => 0 - e
  }

  /** The magnitude of a result: how far the call dissected. */
  function Reach(r: int): nat
  {
    if r < 0 then -r else r
  }

  /** Reads the integer dissect returned when called at `offset`. */
  function ReadResult(beef: Beef, offset: nat, r: int): (o: Result<Outcome, Violation>)
    ensures o.Ok? <==> r != 0 && offset <= Reach(r) && (r < 0 ==> -r <= |beef|)
    ensures o.Ok? ==> ResultCode(o.value) == r
    ensures o.Ok? ==> (o.value.Reached? <==> r > 0)
    ensures r == 0 ==> o == Err(ZeroResult)
  {
    if r == 0 then Err(ZeroResult)
    else if Reach(r) < offset then Err(Backward)
    else if r < 0 && -r > |beef| then Err(BeyondBeef)
    else if r > 0 then Ok(Reached(r))
    else Ok(Stalled(-r))
  }

  /** An outcome dissect may report for a call at `offset`. */
  predicate WellFormed(o: Outcome, beef: Beef, offset: nat)
  {
    o.end != 0 && offset <= o.end && (o.Stalled? ==> o.end <= |beef|)
  }

  /** Every well-formed outcome survives the integer encoding. */
  lemma OutcomeRoundTrip(o: Outcome, beef: Beef, offset: nat)
    requires WellFormed(o, beef, offset)
    ensures ReadResult(beef, offset, ResultCode(o)) == Ok(o)
  {
  }

  /**
   * The integer convention has no way to say "stalled before dissecting
   * anything" at offset 0: that would be -0, which is 0, which is refused.
   */
  lemma StallAtZeroUnencodable(beef: Beef)
    ensures ResultCode(Stalled(0)) == 0
    ensures ReadResult(beef, 0, ResultCode(Stalled(0))) == Err(ZeroResult)
  {
  }

  /** How many characters of `beef` the call consumed. */
  function Consumed(beef: Beef, o: Outcome): nat
  {
    if o.end < |beef| then o.end else |beef|
  }

  /** The characters of `beef` the call left unconsumed. */
  function Unconsumed(beef: Beef, o: Outcome): (tail: Beef)
    ensures beef[..Consumed(beef, o)] + tail == beef
    ensures tail == [] <==> o.end >= |beef|
  {
    beef[Consumed(beef, o)..]
  }

  /** A positive result at or past the end of the beef means the whole beef is done. */
  lemma ReachedEndDissectsAll(beef: Beef, offset: nat, r: int)
    requires ReadResult(beef, offset, r).Ok?
    ensures r >= |beef| ==> Unconsumed(beef, ReadResult(beef, offset, r).value) == []
    ensures 0 < r < |beef| ==> |Unconsumed(beef, ReadResult(beef, offset, r).value)| == |beef| - r
  {
  }

  /** Every word lies inside [lo, hi). */
  predicate Within(spans: seq<Span>, lo: nat, hi: nat)
  {
    forall i :: 0 <= i < |spans| ==> lo <= spans[i].start <= spans[i].end <= hi
  }

  /**
   * Offers `beef` to `k` at `offset`: `k` may dissect only if it answered
   * ASSIGNED for `history == index == offset`; its result must be non-zero,
   * must not go back past `offset`, and the words it reports must lie in what
   * it says it dissected.
   */
  function Offer(k: Knife, beef: Beef, offset: nat): (r: Result<(seq<Span>, Outcome), Violation>)
    requires offset < |beef|
    ensures r.Ok? <==>
      && k.assignable(beef, offset, offset) == ASSIGNED
      && ReadResult(beef, offset, k.dissect(beef, offset).result).Ok?
      && Within(k.dissect(beef, offset).spans, offset,
           Consumed(beef, ReadResult(beef, offset, k.dissect(beef, offset).result).value))
    ensures r.Ok? ==> r.value.0 == k.dissect(beef, offset).spans
    ensures r.Ok? ==> ResultCode(r.value.1) == k.dissect(beef, offset).result
    ensures r.Ok? ==> offset <= r.value.1.end && WellFormed(r.value.1, beef, offset)
    ensures r == Err(NotAssigned) <==> k.assignable(beef, offset, offset) != ASSIGNED
  {
    if k.assignable(beef, offset, offset) != ASSIGNED then Err(NotAssigned)
    else
      var call := k.dissect(beef, offset);
      match ReadResult(beef, offset, call.result)
      case Err(e) => Err(e)
      case Ok(o) =>
        if Within(call.spans, offset, Consumed(beef, o)) then Ok((call.spans, o))
        else Err(SpanOutside)
  }

  /**
   * What the interface asks of one call of dissect at `offset`: a non-zero
   * result whose magnitude is at least `offset`, a negative one within the
   * beef, and words inside the beef and inside what the result says was
   * dissected.
   */
  predicate KeepsDissectRules(beef: Beef, offset: nat, call: Dissection)
  {
    var r := call.result;
    && r != 0
    && offset <= Reach(r)
    && (r < 0 ==> -r <= |beef|)
    && forall i :: 0 <= i < |call.spans| ==>
         offset <= call.spans[i].start <= call.spans[i].end && call.spans[i].end <= Reach(r) &&
         call.spans[i].end <= |beef|
  }

  /** At a position the knife ASSIGNED, an offer succeeds exactly when the call keeps the rules. */
  lemma OfferChecksDissectRules(k: Knife, beef: Beef, offset: nat)
    requires offset < |beef|
    requires k.assignable(beef, offset, offset) == ASSIGNED
    ensures Offer(k, beef, offset).Ok? <==> KeepsDissectRules(beef, offset, k.dissect(beef, offset))
  {
  }

  /**
   * A knife that keeps the interface's contract: every answer of `assignable`
   * for `index >= history` is one of the three codes, and whenever it answers
   * ASSIGNED at its anchor, the call of dissect there keeps the rules.
   */
  ghost predicate Honours(k: Knife)
  {
    && (forall beef: Beef, history: nat, index: nat ::
          history <= index < |beef| ==> LIMIT <= k.assignable(beef, history, index) <= ASSIGNED)
    && (forall beef: Beef, offset: nat ::
          offset < |beef| && k.assignable(beef, offset, offset) == ASSIGNED ==>
            KeepsDissectRules(beef, offset, k.dissect(beef, offset)))
  }

  /** For a knife that keeps the contract, offers succeed exactly where it ASSIGNED, and every scan ends. */
  lemma HonouringKnifeIsTotal(k: Knife, beef: Beef, offset: nat)
    requires Honours(k)
    requires offset < |beef|
    ensures k.assignable(beef, offset, offset) == ASSIGNED <==> Offer(k, beef, offset).Ok?
    ensures NextKnifeStart(k, beef, offset, offset).Ok?
  {
  }

  // ---------------------------------------------------------------------------
  // Rebuilding the beef after a negative result
  // ---------------------------------------------------------------------------

  /** A beef whose last character is '\0' is the last part of the text. */
  predicate IsFinal(beef: Beef)
  {
    |beef| > 0 && beef[|beef| - 1] == '\0'
  }

  /**
   * The beef to dissect next after a result `r < 0`: the characters from
   * `|r|` on, followed by the newly read characters `more`.
   */
  function Rebase(beef: Beef, r: int, more: Beef): (next: Beef)
    requires r < 0 && -r <= |beef|
    ensures beef[..-r] + next == beef + more
    ensures |next| == |beef| + r + |more|
  {
    beef[-r..] + more
  }

  /** The rebuilt beef is the tail the result left unconsumed, followed by the new characters. */
  lemma RebaseKeepsUnconsumed(beef: Beef, offset: nat, r: int, more: Beef)
    requires r < 0
    requires ReadResult(beef, offset, r).Ok?
    ensures Rebase(beef, r, more) == Unconsumed(beef, ReadResult(beef, offset, r).value) + more
  {
  }

  /** The article "hello yang!", read 8 characters at a time. */
  lemma HelloYang()
    ensures ReadResult("hello ya", 0, -5) == Ok(Stalled(5))
    ensures Rebase("hello ya", -5, "ng!") == " yang!"
  {
  }

  /** Position `i` of the rebuilt beef is position `|r| + i` of the old beef followed by `more`. */
  lemma RebasedPositions(beef: Beef, r: int, more: Beef, i: nat, j: nat)
    requires r < 0 && -r <= |beef|
    requires i <= j <= |Rebase(beef, r, more)|
    ensures Rebase(beef, r, more)[i..j] == (beef + more)[-r + i..-r + j]
  {
  }

  /** Whether the rebuilt beef is the last part of the text. */
  lemma FinalAfterRebase(beef: Beef, r: int, more: Beef)
    requires r < 0 && -r <= |beef|
    ensures IsFinal(Rebase(beef, r, more)) <==>
      if more == [] then -r < |beef| && IsFinal(beef) else IsFinal(more)
  {
  }

  /** One refill: the negative result a dissection stalled at, and the characters read after it. */
  datatype Refill = Refill(stall: int, more: Beef)

  /** All the characters read by a sequence of refills, in order. */
  function Appended(refills: seq<Refill>): Beef
  {
    if refills == [] then [] else refills[0].more + Appended(refills[1..])
  }

  /**
   * Runs a sequence of refills over `beef`: the characters committed (dissected
   * and dropped) and the beef left, or None when a refill does not fit. Once
   * the beef is the last part of the text nothing more is read, and its
   * rebuilt tail keeps the final '\0'.
   */
  function Replay(beef: Beef, refills: seq<Refill>): Option<(Beef, Beef)>
    decreases |refills|
  {
    if refills == [] then Some(([], beef))
    else
      var f := refills[0];
      if f.stall < 0 && -f.stall <= |beef| && (IsFinal(beef) ==> f.more == [] && -f.stall < |beef|) then
        match Replay(Rebase(beef, f.stall, f.more), refills[1..])
        case None => None
        case Some(p) => Some((beef[..-f.stall] + p.0, p.1))
      else None
  }

  /** Refilling never loses or repeats a character of the text. */
  lemma {:induction false} ReplayLosesNothing(beef: Beef, refills: seq<Refill>)
    requires Replay(beef, refills).Some?
    ensures Replay(beef, refills).value.0 + Replay(beef, refills).value.1 == beef + Appended(refills)
    decreases |refills|
  {
    if refills != [] {
      var f := refills[0];
      var next := Rebase(beef, f.stall, f.more);
      ReplayLosesNothing(next, refills[1..]);
      var p := Replay(next, refills[1..]).value;
      calc {
        beef[..-f.stall] + p.0 + p.1;
        beef[..-f.stall] + (p.0 + p.1);
        beef[..-f.stall] + (next + Appended(refills[1..]));
        (beef[..-f.stall] + next) + Appended(refills[1..]);
        beef + f.more + Appended(refills[1..]);
        beef + (f.more + Appended(refills[1..]));
      }
    }
  }

  /** Nothing is read after the last part of the text, and the end marker stays last. */
  lemma {:induction false} FinalSegmentReadsNothing(beef: Beef, refills: seq<Refill>)
    requires IsFinal(beef)
    requires Replay(beef, refills).Some?
    ensures Appended(refills) == []
    ensures IsFinal(Replay(beef, refills).value.1)
    decreases |refills|
  {
    if refills != [] {
      var f := refills[0];
      FinalAfterRebase(beef, f.stall, f.more);
      FinalSegmentReadsNothing(Rebase(beef, f.stall, f.more), refills[1..]);
    }
  }

  /** A refill that reads characters after the final '\0' is refused. */
  lemma NoReadingAfterTheEnd()
    ensures Replay("a\0", [Refill(-1, "b")]).None?
  {
  }
}
