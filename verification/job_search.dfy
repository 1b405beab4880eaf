/** `JobSpecification.filterJobs`: the search criteria over job postings.

    Each criterion that has text adds one conjunct; the active-only conjunct
    is always there. `LIKE '%x%'` is read as plain substring matching.
 */
module JobSearch {
  import opened Wrappers
  import opened Text
  import opened Entities

  /** `lower(column) LIKE '%' + needle + '%'` for an already lower-cased `needle`;
      a null column never matches. */
  predicate ColumnLike(column: Option<string>, needle: string) {
    column.Some? && Contains(Lower(column.value), needle)
  }

  /** The keyword criterion: title, description or required skills contain it, ignoring case. */
  predicate KeywordMatches(p: JobPosting, keyword: Option<string>) {
    HasText(keyword) ==>
      var k := Lower(keyword.value);
      ColumnLike(p.jobTitle, k) || ColumnLike(p.description, k) || ColumnLike(p.requiredSkills, k)
  }

  /** The location criterion: the location contains it, ignoring case. */
  predicate LocationMatches(p: JobPosting, location: Option<string>) {
    HasText(location) ==> ColumnLike(p.location, Lower(location.value))
  }

  /** The experience criterion: equal, as written. */
  predicate ExperienceMatches(p: JobPosting, experienceLevel: Option<string>) {
    HasText(experienceLevel) ==> p.experienceLevel == experienceLevel
  }

  /** `isTrue(isActive)`: a null flag is not true. */
  predicate IsActive(p: JobPosting) {
    p.isActive == Some(true)
  }

  /** `filterJobs(keyword, location, experienceLevel)` applied to one posting. */
  predicate FilterJobs(p: JobPosting, keyword: Option<string>, location: Option<string>, experienceLevel: Option<string>) {
    KeywordMatches(p, keyword) && LocationMatches(p, location) && ExperienceMatches(p, experienceLevel)
    && IsActive(p)
  }

  /** Whatever the other criteria, every posting the filter accepts is active. */
  lemma AcceptedIsActive(p: JobPosting, keyword: Option<string>, location: Option<string>, experienceLevel: Option<string>)
    requires FilterJobs(p, keyword, location, experienceLevel)
    ensures p.isActive == Some(true)
  {
  }

  /** With every criterion null or blank, the filter keeps exactly the active postings. */
  lemma NoCriteriaKeepsActive(p: JobPosting, keyword: Option<string>, location: Option<string>, experienceLevel: Option<string>)
    requires !HasText(keyword) && !HasText(location) && !HasText(experienceLevel)
    ensures FilterJobs(p, keyword, location, experienceLevel) <==> p.isActive == Some(true)
  {
  }

  /** An occurrence of `sub` in the lower-cased column. */
  ghost predicate OccursLower(column: Option<string>, sub: string) {
    column.Some? && exists i :: OccursAt(Lower(column.value), sub, i)
  }

  /** A keyword with text matches iff its lower-case form occurs in the lower-cased title,
      description or required skills. */
  lemma KeywordIff(p: JobPosting, keyword: string)
    requires HasText(Some(keyword))
    ensures KeywordMatches(p, Some(keyword)) <==>
      OccursLower(p.jobTitle, Lower(keyword)) || OccursLower(p.description, Lower(keyword))
      || OccursLower(p.requiredSkills, Lower(keyword))
  {
  }

  /** A location with text matches iff its lower-case form occurs in the lower-cased location. */
  lemma LocationIff(p: JobPosting, location: string)
    requires HasText(Some(location))
    ensures LocationMatches(p, Some(location)) <==> OccursLower(p.location, Lower(location))
  {
  }

  /** The experience criterion, when it has text, accepts exactly the postings whose level
      equals it; any other level, however close, is rejected; a blank or null criterion
      accepts every posting. */
  lemma ExperienceIsExact(p: JobPosting, e: Option<string>)
    ensures HasText(e) ==> (ExperienceMatches(p, e) <==> p.experienceLevel == e)
    ensures HasText(e) && p.experienceLevel.Some? && p.experienceLevel.value != e.value ==> !ExperienceMatches(p, e)
    ensures !HasText(e) ==> ExperienceMatches(p, e)
  {
  }

  /** For instance, a longer level containing the criterion does not match, and neither does
      a different case. */
  lemma ExperienceExamples(p: JobPosting)
    requires p.experienceLevel == Some("Senior Engineer")
    ensures !ExperienceMatches(p, Some("Senior"))
    ensures !ExperienceMatches(p, Some("senior engineer"))
    ensures ExperienceMatches(p, Some("Senior Engineer"))
  {
    assert "Senior"[0] != ' ';
    assert "senior engineer"[0] != "Senior Engineer"[0];
    assert "Senior Engineer"[0] != ' ';
  }

  /** Dropping a criterion (making it null) never rejects a posting the filter accepted. */
  lemma DroppingCriterionKeeps(p: JobPosting, keyword: Option<string>, location: Option<string>, experienceLevel: Option<string>)
    requires FilterJobs(p, keyword, location, experienceLevel)
    ensures FilterJobs(p, None, location, experienceLevel)
    ensures FilterJobs(p, keyword, None, experienceLevel)
    ensures FilterJobs(p, keyword, location, None)
  {
  }
}
