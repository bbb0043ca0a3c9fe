/** The three-way decision table of `mergeCases` (Main.java): for one file
    name, the split point's, the head's and the given branch's reference
    (absent when the commit does not track the name) decide what the merge
    does with it. */
module MergeTable {
  import opened Outcomes
  import opened FileReferences

  /** What `mergeAction` is asked to do: nothing, take the given branch's
      version ("checkout"), stage a removal ("remove"), or write conflict
      markers ("conflict"). */
  datatype Action = Keep | TakeOther | Remove | Conflict

  /** `FileReference.equals` between two references known to be present. */
  predicate Same(x: Option<FileRef>, y: Option<FileRef>)
    requires x.Some? && y.Some?
  {
    Equals(x.value, y.value)
  }

  /** The guard of the `k`-th branch of the if-chain, numbered 1 to 13 in
      source order; no other number has a guard. */
  predicate Guard(k: int, s: Option<FileRef>, h: Option<FileRef>, b: Option<FileRef>) {
    match k
    case 1 => s.Some? && h.Some? && b.Some? && Same(h, s) && !Same(b, s)
    case 2 => s.Some? && h.Some? && b.Some? && !Same(h, s) && Same(b, s)
    case 3 => s.Some? && h.None? && b.None?
    case 4 => s.Some? && h.Some? && b.None? && Same(h, s)
    case 5 => s.Some? && h.None? && b.Some? && Same(s, b)
    case 6 => s.Some? && h.Some? && b.Some? && !Same(h, s) && !Same(b, s) && Same(h, b)
    case 7 => s.None? && h.None? && b.Some?
    case 8 => s.None? && h.Some? && b.None?
    case 9 => s.Some? && h.Some? && b.Some? && Same(h, s) && Same(b, h)
    case 10 => s.Some? && h.Some? && b.Some? && !Same(h, s) && !Same(b, s) && !Same(h, b)
    case 11 => s.Some? && h.Some? && b.None? && !Same(h, s)
    case 12 => s.Some? && b.Some? && h.None? && !Same(b, s)
    case 13 => s.None? && h.Some? && b.Some? && !Same(h, b)
    case _ => false
  }

  /** The action the `k`-th branch takes; the `continue` branches keep. */
  function ActionOf(k: int): Action {
    if k == 1 || k == 7 then TakeOther
    else if k == 4 then Remove
    else if 10 <= k <= 13 then Conflict
    else Keep
  }

  /** The first branch whose guard holds, if any. */
  function FirstRule(s: Option<FileRef>, h: Option<FileRef>, b: Option<FileRef>): (r: Option<int>)
    ensures r.Some? ==> 1 <= r.value <= 13 && Guard(r.value, s, h, b)
    ensures r.Some? ==> forall j :: 1 <= j < r.value ==> !Guard(j, s, h, b)
    ensures r.None? ==> forall j :: !Guard(j, s, h, b)
  {
    FirstFrom(1, s, h, b)
  }

  function FirstFrom(k: int, s: Option<FileRef>, h: Option<FileRef>, b: Option<FileRef>): (r: Option<int>)
    requires 1 <= k <= 14
    ensures r.Some? ==> k <= r.value <= 13 && Guard(r.value, s, h, b)
    ensures r.Some? ==> forall j :: k <= j < r.value ==> !Guard(j, s, h, b)
    ensures r.None? ==> forall j :: k <= j ==> !Guard(j, s, h, b)
    decreases 14 - k
  {
    if k == 14 then None
    else if Guard(k, s, h, b) then Some(k)
    else FirstFrom(k + 1, s, h, b)
  }

  /** The action `mergeCases` takes for one name: that of the first guard
      that holds, and nothing when none does. */
  function Decide(s: Option<FileRef>, h: Option<FileRef>, b: Option<FileRef>): Action {
    match FirstRule(s, h, b)
    case None => Keep
    case Some(k) => ActionOf(k)
  }

  /** At most one guard holds for any triple, so the order of the chain
      does not matter. */
  lemma GuardsExclusive(s: Option<FileRef>, h: Option<FileRef>, b: Option<FileRef>, j: int, k: int)
    requires Guard(j, s, h, b) && Guard(k, s, h, b)
    ensures j == k
  {
    if s.Some? && h.Some? && b.Some? {
      EqualsIsEquivalence(s.value, h.value, b.value);
      EqualsIsEquivalence(h.value, b.value, s.value);
      EqualsIsEquivalence(b.value, s.value, h.value);
    }
  }

  /** The one triple no guard covers, with both sides and the split point
      agreeing on absence at the split: added on both sides identically. */
  lemma UncoveredTriple(s: Option<FileRef>, h: Option<FileRef>, b: Option<FileRef>)
    ensures (forall j :: !Guard(j, s, h, b)) <==>
      ((s.None? && h.None? && b.None?) || (s.None? && h.Some? && b.Some? && Same(h, b)))
  {
    if s.Some? && h.Some? && b.Some? {
      EqualsIsEquivalence(s.value, h.value, b.value);
      EqualsIsEquivalence(h.value, b.value, s.value);
      EqualsIsEquivalence(b.value, s.value, h.value);
    }
    if !((s.None? && h.None? && b.None?) || (s.None? && h.Some? && b.Some? && Same(h, b))) {
      var k := WitnessGuard(s, h, b);
    }
  }

  function WitnessGuard(s: Option<FileRef>, h: Option<FileRef>, b: Option<FileRef>): (k: int)
    requires !((s.None? && h.None? && b.None?) || (s.None? && h.Some? && b.Some? && Same(h, b)))
    ensures 1 <= k <= 13 && Guard(k, s, h, b)
  {
    if s.None? then (if h.None? then 7 else if b.None? then 8 else 13)
    else if h.None? then (if b.None? then 3 else if Same(s, b) then 5 else 12)
    else if b.None? then (if Same(h, s) then 4 else 11)
    else if Same(h, s) then (if Same(b, s) then 9 else 1)
    else if Same(b, s) then 2
    else if Same(h, b) then 6
    else 10
  }

  // ---------------------------------------------------- the reference rule

  /** Two optional references agree: both absent, or both present and equal. */
  predicate Agree(x: Option<FileRef>, y: Option<FileRef>) {
    (x.None? && y.None?) || (x.Some? && y.Some? && Equals(x.value, y.value))
  }

  /** The usual three-way rule, stated without the table: a side that did not
      change since the split gives way to the other, sides that agree keep,
      and sides that changed differently conflict. */
  function ThreeWay(s: Option<FileRef>, h: Option<FileRef>, b: Option<FileRef>): Action {
    if Agree(b, s) || Agree(h, b) then Keep
    else if Agree(h, s) then (if b.Some? then TakeOther else Remove)
    else Conflict
  }

  /** The table decides exactly as the three-way rule does. */
  lemma DecideIsThreeWay(s: Option<FileRef>, h: Option<FileRef>, b: Option<FileRef>)
    ensures Decide(s, h, b) == ThreeWay(s, h, b)
  {
    if s.Some? && h.Some? && b.Some? {
      EqualsIsEquivalence(s.value, h.value, b.value);
      EqualsIsEquivalence(h.value, b.value, s.value);
      EqualsIsEquivalence(b.value, s.value, h.value);
    }
    UncoveredTriple(s, h, b);
    match FirstRule(s, h, b)
    case None =>
    case Some(k) =>
      var w := WitnessGuard(s, h, b);
      GuardsExclusive(s, h, b, k, w);
  }

  /** The given branch's version is taken exactly when the head did not change
      since the split and the branch did, to something present. */
  lemma TakesOtherExactly(s: Option<FileRef>, h: Option<FileRef>, b: Option<FileRef>)
    ensures Decide(s, h, b) == TakeOther <==> b.Some? && Agree(h, s) && !Agree(b, s)
  {
    DecideIsThreeWay(s, h, b);
  }

  /** A conflict arises exactly when both sides changed since the split and
      disagree with each other. */
  lemma ConflictsExactly(s: Option<FileRef>, h: Option<FileRef>, b: Option<FileRef>)
    ensures Decide(s, h, b) == Conflict <==> !Agree(h, s) && !Agree(b, s) && !Agree(h, b)
  {
    DecideIsThreeWay(s, h, b);
  }

  /** The head's version is removed exactly when the head kept the split
      point's version and the given branch deleted it. */
  lemma RemovesExactly(s: Option<FileRef>, h: Option<FileRef>, b: Option<FileRef>)
    ensures Decide(s, h, b) == Remove <==> s.Some? && b.None? && Agree(h, s)
  {
    DecideIsThreeWay(s, h, b);
  }
}
