/** Tag arithmetic of the archive controller: the most recent tag of a
    repository listing and the next tag to use for a new snapshot. A listing
    is the list of snapshot names the backup engine reports for a repository,
    in its own (insertion) order. */
module TagRegistry {
  import opened Results
  import opened Errors
  import opened Decimal

  /** The distinct tags of a listing (the source builds `set(listing)`). */
  function TagSet(listing: seq<string>): (tags: set<string>)
    ensures forall t :: t in tags <==> t in listing
  {
    set t | t in listing
  }

  /** `n` is the counter auto-numbering settles on for the tag set `tags`:
      the least number from |tags| + 1 upward whose rendering is unused. */
  ghost predicate IsLeastFreeCounter(tags: set<string>, n: nat) {
    && |tags| + 1 <= n
    && NatToString(n) !in tags
    && forall m :: |tags| + 1 <= m < n ==> NatToString(m) in tags
  }

  /** The most recent tag is the last one listed; an empty listing fails the
      way indexing an empty list does. */
  function MostRecentTag(listing: seq<string>): (r: Result<string, Error>)
    ensures r.Failure? <==> listing == []
    ensures r.Failure? ==> r.error == IndexError
    ensures r.Success? ==> r.value in listing && r.value == listing[|listing| - 1]
  {
    if listing == [] then Failure(IndexError) else Success(listing[|listing| - 1])
  }

  /** A snapshot appended to a listing becomes its most recent tag. */
  lemma AppendedTagIsMostRecent(listing: seq<string>, tag: string)
    ensures MostRecentTag(listing + [tag]) == Success(tag)
  {
  }

  /** Among any `count` consecutive counters starting at `lo`, with `count`
      larger than the number of tags, one renders to an unused tag. */
  lemma {:induction false} FreeCounterWithin(tags: set<string>, lo: nat, count: nat) returns (m: nat)
    requires count > |tags|
    ensures lo <= m < lo + count && NatToString(m) !in tags
    decreases count
  {
    if NatToString(lo) !in tags {
      m := lo;
    } else {
      var rest := tags - {NatToString(lo)};
      m := FreeCounterWithin(rest, lo + 1, count - 1);
      RenderInjective(m, lo);
    }
  }

  /** Auto-numbering always stops within |tags| + 1 candidates. */
  lemma FreeCounterBounded(tags: set<string>) returns (m: nat)
    ensures |tags| + 1 <= m <= 2 * |tags| + 1 && NatToString(m) !in tags
  {
    m := FreeCounterWithin(tags, |tags| + 1, |tags| + 1);
  }

  /** At most one counter is the least free one. */
  lemma LeastFreeCounterUnique(tags: set<string>, a: nat, b: nat)
    requires IsLeastFreeCounter(tags, a) && IsLeastFreeCounter(tags, b)
    ensures a == b
  {
  }

  /** Searching upward from `n`, below which every counter from
      |tags| + 1 on is used, with a free counter at `free`, meets a least
      free counter. */
  lemma {:induction false} LeastFreeCounterFrom(tags: set<string>, n: nat, free: nat)
    requires |tags| + 1 <= n <= free && NatToString(free) !in tags
    requires forall m :: |tags| + 1 <= m < n ==> NatToString(m) in tags
    ensures exists k :: IsLeastFreeCounter(tags, k)
    decreases free - n
  {
    if NatToString(n) !in tags {
      assert IsLeastFreeCounter(tags, n);
    } else {
      LeastFreeCounterFrom(tags, n + 1, free);
    }
  }

  /** Every tag set has a least free counter. */
  lemma LeastFreeCounterExists(tags: set<string>)
    ensures exists n :: IsLeastFreeCounter(tags, n)
  {
    var free := FreeCounterBounded(tags);
    LeastFreeCounterFrom(tags, |tags| + 1, free);
  }

  /** The least free counter lies within the bound of the search. */
  lemma LeastFreeCounterBounded(tags: set<string>, n: nat)
    requires IsLeastFreeCounter(tags, n)
    ensures n <= 2 * |tags| + 1
  {
    var free := FreeCounterBounded(tags);
  }

  /** Reference definition of the tag for a new snapshot: a supplied tag
      unless it is already listed, otherwise the rendering of the least free
      counter of the listing's distinct tags. */
  ghost function NextTag(listing: seq<string>, tag: Option<string>): (r: Result<string, Error>)
    ensures tag.Some? && tag.value in listing ==> r == Failure(DuplicateTagException(tag.value))
    ensures tag.Some? && tag.value !in listing ==> r == Success(tag.value)
    ensures tag.None? ==> exists n: nat {:trigger NatToString(n)} ::
                            && r == Success(NatToString(n))
                            && IsLeastFreeCounter(TagSet(listing), n)
                            && n <= 2 * |TagSet(listing)| + 1
    ensures r.Success? ==> r.value !in listing
  {
    if tag.Some? && tag.value in listing then Failure(DuplicateTagException(tag.value))
    else if tag.Some? then Success(tag.value)
    else
      var tags := TagSet(listing);
      LeastFreeCounterExists(tags);
      var n :| IsLeastFreeCounter(tags, n);
      LeastFreeCounterBounded(tags, n);
      Success(NatToString(n))
  }

  /** The tag for a new snapshot: a supplied tag unless it is already listed,
      otherwise the decimal counter counting up from the number of distinct
      tags plus one, skipping counters that are already used as tags. */
  method GenerateNextTag(listing: seq<string>, tag: Option<string>) returns (r: Result<string, Error>)
    ensures r == NextTag(listing, tag)
  {
    var tags := TagSet(listing);
    if tag.Some? && tag.value in tags {
      return Failure(DuplicateTagException(tag.value));
    } else if tag.Some? {
      return Success(tag.value);
    }
    ghost var free := FreeCounterBounded(tags);
    var next := |tags| + 1;
    while NatToString(next) in tags
      invariant |tags| + 1 <= next <= free
      invariant forall m :: |tags| + 1 <= m < next ==> NatToString(m) in tags
      decreases free - next
    {
      next := next + 1;
    }
    r := Success(NatToString(next));
    ghost var n :| IsLeastFreeCounter(tags, n) && NextTag(listing, tag) == Success(NatToString(n));
    LeastFreeCounterUnique(tags, n, next);
  }
}
