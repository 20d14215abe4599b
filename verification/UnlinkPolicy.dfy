/** The compare-and-swap plans for unlinking a Task from a Capture and for undoing exactly that. */
module UnlinkPolicy {
  import opened Wrappers
  import opened Orders

  const MAX_REVISION: int := 9007199254740991

  datatype Code = InvalidRevision | RevisionConflict | UndoConflict | RevisionExhausted

  datatype UnlinkPlan = UnlinkPlan(duplicate: bool, links: seq<string>, status: string, mutate: bool)
  datatype UndoPlan = UndoPlan(links: seq<string>, status: string)

  function Filtered(links: seq<string>, task: string): (r: seq<string>)
    ensures task !in r
    ensures task !in links ==> r == links
  {
    if links == [] then []
    else if links[0] == task then Filtered(links[1..], task)
    else [links[0]] + Filtered(links[1..], task)
  }

  function PlanUnlink(links: seq<string>, converted: seq<string>, status: string, task: string, stored: int,
      displayed: int): Result<UnlinkPlan, Code>
  {
    if displayed != stored then Err(RevisionConflict)
    else if task !in links then Ok(UnlinkPlan(true, links, status, false))
    else
      var remaining := Filtered(links, task);
      var next := if status == "linked" && remaining == [] && converted == [] then "inbox" else status;
      Ok(UnlinkPlan(false, remaining, next, true))
  }

  function AdvanceRevision(stored: int): Result<int, Code> {
    if !(0 <= stored <= MAX_REVISION) then Err(InvalidRevision)
    else if stored >= MAX_REVISION then Err(RevisionExhausted)
    else Ok(stored + 1)
  }

  function PlanUndo(links: seq<string>, stored: int, displayed: int, after: int, storedDigest: string,
      afterDigest: string, task: string, statusBefore: string): Result<UndoPlan, Code>
  {
    if displayed != stored || stored != after then Err(RevisionConflict)
    else if storedDigest != afterDigest then Err(UndoConflict)
    else if task in links then Err(UndoConflict)
    else Ok(UndoPlan(SortedTexts(links + [task]), statusBefore))
  }

  lemma {:induction false} FilteredMultiset(links: seq<string>, task: string)
    ensures multiset(Filtered(links, task)) == multiset(links)[task := 0]
  {
    if links != [] {
      assert links == [links[0]] + links[1..];
      FilteredMultiset(links[1..], task);
    }
  }

  lemma {:induction false} FilteredOrder(links: seq<string>, task: string, other: string -> bool)
    requires forall x :: other(x) <==> x != task
    ensures Filtered(links, task) == Where(other, links)
  {
    if links != [] {
      FilteredOrder(links[1..], task, other);
    }
  }

  /** What an admitted unlink does: every mention of the task goes, the other links stay with their order and
      repetitions, and the Capture goes back to the inbox exactly when it was linked and no link of either
      kind is left; any other revision is refused, whether or not the task is linked. */
  lemma {:induction false} UnlinkMeans(links: seq<string>, converted: seq<string>, status: string, task: string,
      stored: int, displayed: int)
    ensures var r := PlanUnlink(links, converted, status, task, stored, displayed);
            if displayed != stored then r == Err(RevisionConflict) else r.Ok?
    ensures displayed == stored ==>
              var plan := PlanUnlink(links, converted, status, task, stored, displayed).value;
              && plan.links == Where((x: string) => x != task, links)
              && plan.mutate == (task in links) == !plan.duplicate
              && (plan.status != status <==>
                    status == "linked" && task in links && converted == [] && forall x | x in links :: x == task)
              && (plan.status != status ==> plan.status == "inbox")
  {
    var other := (x: string) => x != task;
    FilteredOrder(links, task, other);
    WhereHolds(other, links);
    if task in links && !(forall x | x in links :: x == task) {
      var x :| x in links && x != task;
      assert x in Where(other, links);
    }
    if task in links && Filtered(links, task) != [] {
      assert Filtered(links, task)[0] in Where(other, links);
    }
  }

  /** Sorting the task back in restores the list exactly when it was sorted and held the task once. */
  lemma {:induction false} RestoredLinks(links: seq<string>, task: string)
    requires task in links
    ensures SortedTexts(Filtered(links, task) + [task]) == links <==>
            Sorted(TextLess, links) && multiset(links)[task] == 1
  {
    var back := SortedTexts(Filtered(links, task) + [task]);
    FilteredMultiset(links, task);
    assert multiset(back) == multiset(links)[task := 1];
    if Sorted(TextLess, links) && multiset(links)[task] == 1 {
      TextLessTotal();
      assert multiset(back) == multiset(links);
      SortedUnique(TextLess, back, links);
    }
  }

  /** When an undo is refused, and for what; an admitted one links the task once more, in sorted order, and gives
      back the status. The displayed, the stored and the receipt's revision must be one. */
  lemma {:induction false} UndoMeans(links: seq<string>, stored: int, displayed: int, after: int, storedDigest: string,
      afterDigest: string, task: string, statusBefore: string)
    ensures var r := PlanUndo(links, stored, displayed, after, storedDigest, afterDigest, task, statusBefore);
            && (r == Err(RevisionConflict) <==> !(displayed == stored == after))
            && (r == Err(UndoConflict) <==>
                  displayed == stored == after && (storedDigest != afterDigest || task in links))
            && (r.Ok? <==> displayed == stored == after && storedDigest == afterDigest && task !in links)
            && (r.Ok? ==> multiset(r.value.links) == multiset(links) + multiset{task} &&
                          Sorted(TextLess, r.value.links) && r.value.status == statusBefore)
  {
  }

  /** A revision counts up by one as long as it is a safe integer; the last one cannot be advanced, and what is
      none is refused. */
  lemma {:induction false} RevisionsCount(stored: int, n: nat)
    ensures 0 <= stored && stored + n <= 9007199254740991 ==> Advanced(stored, n) == Ok(stored + n)
    ensures 0 <= stored <= 9007199254740991 < stored + n ==> Advanced(stored, n) == Err(RevisionExhausted)
    ensures !(0 <= stored <= 9007199254740991) && n > 0 ==> Advanced(stored, n) == Err(InvalidRevision)
  {
    if n > 0 {
      RevisionsCount(stored, n - 1);
    }
  }

  /** A stored revision after that many mutations. */
  function Advanced(stored: int, n: nat): Result<int, Code> {
    if n == 0 then Ok(stored)
    else match Advanced(stored, n - 1) case Err(e) => Err(e) case Ok(r) => AdvanceRevision(r)
  }

  /** Unlink, advance the revision once, undo with what the receipt recorded: the undo is always admitted,
      gives back the status, and gives back the links exactly when they were sorted and named the task once.
      Once the stored or the displayed revision is another one (the undo's own advance makes it so) or the
      row's digest has changed, the same receipt undoes nothing. */
  lemma {:induction false} UnlinkThenUndo(links: seq<string>, converted: seq<string>, status: string, task: string,
      revision: int, digest: string)
    requires task in links && AdvanceRevision(revision).Ok?
    ensures var plan := PlanUnlink(links, converted, status, task, revision, revision);
            && plan.Ok? && plan.value.mutate && !plan.value.duplicate && task !in plan.value.links
            && var after := AdvanceRevision(revision).value;
               after == revision + 1 &&
               var undo := PlanUndo(plan.value.links, after, after, after, digest, digest, task, status);
               && undo.Ok? && undo.value.status == status
               && (undo.value.links == links <==> Sorted(TextLess, links) && multiset(links)[task] == 1)
               && (forall row, stored, displayed, rowDigest ::
                     stored != after || displayed != after || rowDigest != digest ==>
                       PlanUndo(row, stored, displayed, after, rowDigest, digest, task, status).Err?)
  {
    RestoredLinks(links, task);
  }

  /** An undone unlink cannot be undone again even if the row looks the same: the task is linked again. */
  lemma {:induction false} UndoneRowRefuses(links: seq<string>, stored: int, displayed: int, after: int,
      storedDigest: string, afterDigest: string, task: string, status: string)
    requires PlanUndo(links, stored, displayed, after, storedDigest, afterDigest, task, status).Ok?
    ensures var plan := PlanUndo(links, stored, displayed, after, storedDigest, afterDigest, task, status).value;
            var undone := plan.links;
            PlanUndo(undone, stored, displayed, after, storedDigest, afterDigest, task, status) == Err(UndoConflict)
  {
    var undone := SortedTexts(links + [task]);
    assert (links + [task])[|links|] == task;
    assert task in multiset(undone);
  }
}
