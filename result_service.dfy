/**
  The results listing (src/modules/result/result.service.ts): the filter
  `fetchUserTestResults` builds from its query parameters, read as a
  condition on one finished attempt joined with its user and the user's
  profile rows.
 */
module ResultService {
  import opened Wrappers
  import opened Tables
  import opened Store
  import opened Text

  /** `ExperienceLevel` (src/common/enum/enum.ts): 0 for any candidate, 1 for a fresher, 2 for an experienced one. */
  const ANY_EXPERIENCE: int := 0
  const FRESHER: int := 1
  const EXPERIENCED: int := 2

  /** `PercentageFilter` (src/common/enum/enum.ts). */
  const ALL_PERCENTAGES: string := "All"
  const UP_TO_50: string := "0-50"
  const FROM_50_TO_75: string := "50-75"
  const FROM_75: string := "75-100"

  /** An inclusive range on the percentage; a missing bound is no bound. */
  datatype Range = Range(gte: Option<int>, lte: Option<int>)

  /** The `some` clause on the profile rows: one row must carry every given field. */
  datatype InfoClause = InfoClause(positionId: Option<int>, isFresher: Option<bool>)

  /**
    The search clause: the first two space-separated words of the search
    (the second missing when there is no space) and the whole search.
   */
  datatype SearchClause = SearchClause(first: string, second: Option<string>, whole: string)

  /** The filter; a missing part sets no constraint, as an `undefined` field does. */
  datatype ResultFilter = ResultFilter(
    subjectId: Option<int>,
    info: Option<InfoClause>,
    percentage: Option<Range>,
    search: Option<SearchClause>)

  /** The percentage clause of a `PercentageFilter` name; any other text sets none. */
  function PercentageClause(percentage: string): Option<Range>
  {
    if percentage == ALL_PERCENTAGES then Some(Range(None, Some(100)))
    else if percentage == UP_TO_50 then Some(Range(None, Some(50)))
    else if percentage == FROM_50_TO_75 then Some(Range(Some(50), Some(75)))
    else if percentage == FROM_75 then Some(Range(Some(75), None))
    else None
  }

  /** The profile clause of a position id and an experience level. */
  function InfoFilter(positionId: int, experienceLevel: int): Option<InfoClause>
  {
    if positionId == 0 && experienceLevel == ANY_EXPERIENCE then None
    else if positionId > 0 && experienceLevel > ANY_EXPERIENCE then
      Some(InfoClause(Some(positionId), Some(experienceLevel == FRESHER)))
    else if positionId > 0 && experienceLevel == ANY_EXPERIENCE then Some(InfoClause(Some(positionId), None))
    else if experienceLevel > ANY_EXPERIENCE && positionId == 0 then Some(InfoClause(None, Some(experienceLevel == FRESHER)))
    else None
  }

  /** The search clause of a search string; the empty search sets none. */
  function SearchFilter(search: string): Option<SearchClause>
  {
    if |search| > 0 then
      var name := Split(search, ' ');
      Some(SearchClause(name[0], if |name| > 1 then Some(name[1]) else None, search))
    else None
  }

  /** The filter `fetchUserTestResults` builds (the date window is not part of this model). */
  function BuildResultFilter(search: string, positionId: int, subjectId: int, percentage: string,
                             experienceLevel: int): ResultFilter
  {
    ResultFilter(
      if subjectId > 0 then Some(subjectId) else None,
      InfoFilter(positionId, experienceLevel),
      PercentageClause(percentage),
      SearchFilter(search))
  }

  /** The stored percentage lies in the range; a NULL percentage lies in no range. */
  predicate InRange(r: Option<Range>, p: Option<int>)
  {
    r.Some? ==>
      p.Some? &&
      (r.value.gte.Some? ==> p.value >= r.value.gte.value) &&
      (r.value.lte.Some? ==> p.value <= r.value.lte.value)
  }

  /** One profile row carries every field the clause gives. */
  predicate InfoMatches(c: InfoClause, info: UserInfo)
  {
    (c.positionId.Some? ==> info.positionId == c.positionId.value) &&
    (c.isFresher.Some? ==> info.isFresher == c.isFresher.value)
  }

  /** Some profile row of the user matches the clause. */
  predicate ProfileMatches(c: Option<InfoClause>, infos: seq<UserInfo>)
  {
    c.Some? ==> exists k :: 0 <= k < |infos| && InfoMatches(c.value, infos[k])
  }

  /**
    The user matches the search: the first word in the first name and the
    second (when there is one) in the last name, or the whole search in
    the first name, last name, email or mobile number.
   */
  predicate SearchMatches(c: Option<SearchClause>, user: User)
  {
    c.Some? ==>
      (Contains(user.firstName, c.value.first) &&
       (c.value.second.Some? ==> Contains(user.lastName, c.value.second.value))) ||
      Contains(user.firstName, c.value.whole) || Contains(user.lastName, c.value.whole) ||
      Contains(user.email, c.value.whole) || Contains(user.mobile, c.value.whole)
  }

  /** Whether a joined row is listed under the filter. */
  predicate MatchesResultFilter(f: ResultFilter, row: Joined)
  {
    row.detail.isStart == Some(true) && row.detail.isFinish &&
    (f.subjectId.Some? ==> row.detail.subjectId == f.subjectId.value) &&
    ProfileMatches(f.info, row.infos) &&
    InRange(f.percentage, row.detail.percentage) &&
    SearchMatches(f.search, row.user)
  }

  /** The rows `fetchUserTestResults` lists, in table order, before the page is cut. */
  function ResultRows(rows: seq<Joined>, f: ResultFilter): (r: seq<Joined>)
    ensures forall x :: x in r ==> x in rows && MatchesResultFilter(f, x)
    ensures forall x :: x in rows && MatchesResultFilter(f, x) ==> x in r
  {
    var p := (row: Joined) => MatchesResultFilter(f, row);
    forall x | x in rows && p(x)
      ensures x in Filter(rows, p)
    {
      FilterKeeps(rows, p, x);
    }
    Filter(rows, p)
  }

  /** The attempt was started and finished. */
  predicate Completed(row: Joined)
  {
    row.detail.isStart == Some(true) && row.detail.isFinish
  }

  /**
    Every listed row is a started and finished attempt, whatever the
    parameters; with no subject, position, experience, percentage band or
    search, every such row is listed.
   */
  lemma ListedRowsAreCompleted(search: string, positionId: int, subjectId: int, percentage: string,
                               experienceLevel: int, row: Joined)
    ensures MatchesResultFilter(BuildResultFilter(search, positionId, subjectId, percentage, experienceLevel), row) ==>
              Completed(row)
    ensures MatchesResultFilter(BuildResultFilter("", 0, 0, "", ANY_EXPERIENCE), row) <==> Completed(row)
  {
  }

  /** With no constraint given, the listing is exactly the completed attempts, in table order. */
  lemma UnfilteredListingIsCompleted(rows: seq<Joined>)
    ensures ResultRows(rows, BuildResultFilter("", 0, 0, "", ANY_EXPERIENCE)) == Filter(rows, Completed)
  {
    var f := BuildResultFilter("", 0, 0, "", ANY_EXPERIENCE);
    FilterEquivalent(rows, (row: Joined) => MatchesResultFilter(f, row), Completed);
  }

  /**
    A positive subject id keeps only that subject's attempts; any other id
    leaves the subject unconstrained: moving the attempt to another subject
    does not change whether it is listed.
   */
  lemma SubjectConstraint(search: string, positionId: int, subjectId: int, percentage: string,
                          experienceLevel: int, row: Joined, other: int)
    ensures var f := BuildResultFilter(search, positionId, subjectId, percentage, experienceLevel);
      subjectId > 0 && MatchesResultFilter(f, row) ==> row.detail.subjectId == subjectId
    ensures var f := BuildResultFilter(search, positionId, subjectId, percentage, experienceLevel);
      subjectId <= 0 ==>
        (MatchesResultFilter(f, row) <==> MatchesResultFilter(f, row.(detail := row.detail.(subjectId := other))))
  {
  }

  /**
    The percentage bands, each inclusive at both ends; any other text sets
    no constraint, and a NULL percentage lies in no band.
   */
  lemma PercentageBands(percentage: string, p: Option<int>)
    ensures percentage == ALL_PERCENTAGES ==> (InRange(PercentageClause(percentage), p) <==> p.Some? && p.value <= 100)
    ensures percentage == UP_TO_50 ==> (InRange(PercentageClause(percentage), p) <==> p.Some? && p.value <= 50)
    ensures percentage == FROM_50_TO_75 ==>
              (InRange(PercentageClause(percentage), p) <==> p.Some? && 50 <= p.value <= 75)
    ensures percentage == FROM_75 ==> (InRange(PercentageClause(percentage), p) <==> p.Some? && p.value >= 75)
    ensures percentage !in {ALL_PERCENTAGES, UP_TO_50, FROM_50_TO_75, FROM_75} ==> InRange(PercentageClause(percentage), p)
  {
  }

  /** The band boundaries 50 and 75 each belong to two bands. */
  lemma BandsOverlapAtBoundaries()
    ensures InRange(PercentageClause(UP_TO_50), Some(50)) && InRange(PercentageClause(FROM_50_TO_75), Some(50))
    ensures InRange(PercentageClause(FROM_50_TO_75), Some(75)) && InRange(PercentageClause(FROM_75), Some(75))
  {
  }

  /**
    The position and experience decision table: neither given sets no
    constraint; both given need one profile row with that position and
    the matching fresher flag; one given needs a profile row with that one;
    a negative value where the other is not positive sets no constraint.
   */
  lemma ProfileDecisionTable(positionId: int, experienceLevel: int, infos: seq<UserInfo>)
    ensures positionId == 0 && experienceLevel == ANY_EXPERIENCE ==> ProfileMatches(InfoFilter(positionId, experienceLevel), infos)
    ensures positionId > 0 && experienceLevel > ANY_EXPERIENCE ==>
              (ProfileMatches(InfoFilter(positionId, experienceLevel), infos) <==>
               exists k :: 0 <= k < |infos| && infos[k].positionId == positionId &&
                           infos[k].isFresher == (experienceLevel == FRESHER))
    ensures positionId > 0 && experienceLevel == ANY_EXPERIENCE ==>
              (ProfileMatches(InfoFilter(positionId, experienceLevel), infos) <==>
               exists k :: 0 <= k < |infos| && infos[k].positionId == positionId)
    ensures positionId == 0 && experienceLevel > ANY_EXPERIENCE ==>
              (ProfileMatches(InfoFilter(positionId, experienceLevel), infos) <==>
               exists k :: 0 <= k < |infos| && infos[k].isFresher == (experienceLevel == FRESHER))
    ensures (positionId < 0 && experienceLevel <= ANY_EXPERIENCE) || (experienceLevel < ANY_EXPERIENCE && positionId <= 0) ||
            (positionId < 0 && experienceLevel > ANY_EXPERIENCE) || (positionId > 0 && experienceLevel < ANY_EXPERIENCE) ==>
              ProfileMatches(InfoFilter(positionId, experienceLevel), infos)
  {
  }

  /**
    A non-empty search matches when its whole text occurs in one of the
    four contact fields, or its first word occurs in the first name and its
    second word, when it has one, in the last name; the empty search
    matches every user.
   */
  lemma SearchClauseMeaning(search: string, user: User)
    ensures search == [] ==> SearchMatches(SearchFilter(search), user)
    ensures search != [] ==>
      var name := Split(search, ' ');
      (SearchMatches(SearchFilter(search), user) <==>
        (Contains(user.firstName, name[0]) && (|name| > 1 ==> Contains(user.lastName, name[1]))) ||
        Contains(user.firstName, search) || Contains(user.lastName, search) ||
        Contains(user.email, search) || Contains(user.mobile, search))
  {
  }

  /**
    A search without a space is a plain substring search of the four
    contact fields: its only word is the whole search.
   */
  lemma OneWordSearch(search: string, user: User)
    requires search != [] && ' ' !in search
    ensures SearchMatches(SearchFilter(search), user) <==>
              exists i :: OccursAt(user.firstName, search, i) || OccursAt(user.lastName, search, i) ||
                          OccursAt(user.email, search, i) || OccursAt(user.mobile, search, i)
  {
    SplitWithoutSeparator(search, ' ');
  }

  /**
    A full name "first last" finds the user whose first name holds the
    first word and whose last name holds the second.
   */
  lemma FullNameSearch(first: string, last: string, user: User)
    requires first != [] && ' ' !in first && ' ' !in last
    requires Contains(user.firstName, first) && Contains(user.lastName, last)
    ensures SearchMatches(SearchFilter(first + " " + last), user)
  {
    SplitAtFirst(first, ' ', last);
    SplitWithoutSeparator(last, ' ');
  }
}
