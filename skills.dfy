/** The skill catalogue and the daily skill selector of src/lib/skills.ts.
    The calendar is outside the model: the selector takes the day of the year
    as an argument instead of reading the clock. */
module Skills {
  import opened Common
  import opened Storage

  /** The ten categories a user can be interested in. */
  const SkillCategories: seq<string> := [
    "Communication",
    "Leadership",
    "Time Management",
    "Emotional Intelligence",
    "Problem Solving",
    "Teamwork",
    "Adaptability",
    "Critical Thinking",
    "Creativity",
    "Mindfulness"
  ]

  /** A listed category (the type `SkillCategory` of skills.ts). */
  type SkillCategory = c: string | c in SkillCategories witness "Communication"

  /** The fixed catalogue, in declaration order (ids, titles and categories
      as declared; the description texts are left empty). */
  const SkillsDatabase: seq<Skill> := [
    Skill("comm-1", "Active Listening", "", "Communication", None),
    Skill("comm-2", "Clear Email Writing", "", "Communication", None),
    Skill("comm-3", "Constructive Feedback", "", "Communication", None),
    Skill("comm-4", "Non-Verbal Communication", "", "Communication", None),
    Skill("lead-1", "Decision Making", "", "Leadership", None),
    Skill("lead-2", "Delegation", "", "Leadership", None),
    Skill("lead-3", "Inspiring Others", "", "Leadership", None),
    Skill("time-1", "Priority Setting", "", "Time Management", None),
    Skill("time-2", "Time Blocking", "", "Time Management", None),
    Skill("time-3", "Energy Management", "", "Time Management", None),
    Skill("eq-1", "Self-Awareness", "", "Emotional Intelligence", None),
    Skill("eq-2", "Empathy", "", "Emotional Intelligence", None),
    Skill("eq-3", "Emotional Regulation", "", "Emotional Intelligence", None),
    Skill("prob-1", "Root Cause Analysis", "", "Problem Solving", None),
    Skill("prob-2", "Creative Brainstorming", "", "Problem Solving", None),
    Skill("team-1", "Collaboration", "", "Teamwork", None),
    Skill("team-2", "Conflict Resolution", "", "Teamwork", None),
    Skill("adapt-1", "Flexibility", "", "Adaptability", None),
    Skill("adapt-2", "Learning Agility", "", "Adaptability", None),
    Skill("crit-1", "Question Assumptions", "", "Critical Thinking", None),
    Skill("crit-2", "Evidence Evaluation", "", "Critical Thinking", None),
    Skill("creat-1", "Idea Generation", "", "Creativity", None),
    Skill("creat-2", "Innovation", "", "Creativity", None),
    Skill("mind-1", "Present Moment Awareness", "", "Mindfulness", None),
    Skill("mind-2", "Stress Management", "", "Mindfulness", None)
  ]

  /** What the selector relies on in a catalogue: every listed category has
      a skill, every skill belongs to a listed category, and no two skills
      share an id. */
  ghost predicate WellFormedCatalogue(catalogue: seq<Skill>)
  {
    && (forall c :: c in SkillCategories ==> exists s :: s in catalogue && s.category == c)
    && (forall i :: 0 <= i < |catalogue| ==> catalogue[i].category in SkillCategories)
    && (forall i, j :: 0 <= i < j < |catalogue| ==> catalogue[i].id != catalogue[j].id)
  }

  /** The fixed catalogue is well formed. */
  lemma CatalogueWellFormed()
    ensures WellFormedCatalogue(SkillsDatabase)
  {
    CategoriesCovered();
    CategoriesListed();
    IdsDistinct();
  }

  /** Every listed category has at least one skill in the catalogue. */
  lemma CategoriesCovered()
    ensures forall c :: c in SkillCategories ==> exists s :: s in SkillsDatabase && s.category == c
  {
    var first := [0, 4, 7, 10, 13, 15, 17, 19, 21, 23];
    forall k | 0 <= k < |SkillCategories|
      ensures SkillsDatabase[first[k]] in SkillsDatabase && SkillsDatabase[first[k]].category == SkillCategories[k]
    {
    }
  }

  /** Every skill of the catalogue belongs to a listed category. */
  lemma CategoriesListed()
    ensures forall i :: 0 <= i < |SkillsDatabase| ==> SkillsDatabase[i].category in SkillCategories
  {
  }

  /** No two skills of the catalogue share an id. */
  lemma IdsDistinct()
    ensures forall i, j :: 0 <= i < j < |SkillsDatabase| ==> SkillsDatabase[i].id != SkillsDatabase[j].id
  {
  }

  /** Whether a skill passes the interest filter: an empty interest list
      admits every category. */
  predicate Eligible(interests: seq<string>, skill: Skill)
  {
    |interests| == 0 || skill.category in interests
  }

  /** The catalogue filtered by the user's interests, in catalogue order. */
  function InterestPool(catalogue: seq<Skill>, interests: seq<string>): (pool: seq<Skill>)
    ensures forall i :: 0 <= i < |pool| ==> pool[i] in catalogue && Eligible(interests, pool[i])
    ensures forall i :: 0 <= i < |catalogue| && Eligible(interests, catalogue[i]) ==> catalogue[i] in pool
  {
    Filter((s: Skill) => Eligible(interests, s), catalogue)
  }

  /** The skills of `pool` not yet completed, or all of `pool` when every
      one of them has been completed. */
  function Uncompleted(pool: seq<Skill>, completedSkillIds: seq<string>): (r: seq<Skill>)
    ensures forall i :: 0 <= i < |r| ==> r[i] in pool
    ensures (exists s :: s in pool && s.id !in completedSkillIds) ==>
              forall i :: 0 <= i < |r| ==> r[i].id !in completedSkillIds
    ensures (forall s :: s in pool ==> s.id in completedSkillIds) ==> r == pool
    ensures forall s :: s in pool && s.id !in completedSkillIds ==> s in r
    ensures |r| == 0 <==> |pool| == 0
  {
    var remaining := Filter((s: Skill) => s.id !in completedSkillIds, pool);
    assert |remaining| > 0 ==> remaining[0] in pool && remaining[0].id !in completedSkillIds;
    if |remaining| == 0 then pool else remaining
  }

  /** The pool the selector indexes: the interest pool without completed
      skills, or the whole interest pool when that leaves nothing. */
  function DailyPool(catalogue: seq<Skill>, interests: seq<string>, completedSkillIds: seq<string>): seq<Skill>
  {
    Uncompleted(InterestPool(catalogue, interests), completedSkillIds)
  }

  /** The entry of a pool for day `dayOfYear` of the year: position
      `dayOfYear % |pool|`. For an empty pool JavaScript's `pool[n % 0]` is
      `undefined`, modelled as `None`. */
  function PickForDay(pool: seq<Skill>, dayOfYear: nat): (r: Option<Skill>)
    ensures r.None? <==> |pool| == 0
    ensures r.Some? ==> r.value in pool
  {
    if |pool| == 0 then None else Some(pool[dayOfYear % |pool|])
  }

  /** The selection of `getSkillForToday` from a catalogue on day `dayOfYear`
      of the year. With interests that match no category of the catalogue
      there is no skill to return. */
  function SkillForToday(catalogue: seq<Skill>, interests: seq<string>, completedSkillIds: seq<string>, dayOfYear: nat): (r: Option<Skill>)
    ensures r.None? <==> |InterestPool(catalogue, interests)| == 0
    ensures r.Some? ==> r.value in catalogue
    ensures r.Some? && |interests| > 0 ==> r.value.category in interests
    ensures r.Some? && r.value.id in completedSkillIds ==>
              forall s :: s in InterestPool(catalogue, interests) ==> s.id in completedSkillIds
    ensures r.Some? ==> r.value in DailyPool(catalogue, interests, completedSkillIds)
  {
    PickForDay(DailyPool(catalogue, interests, completedSkillIds), dayOfYear)
  }

  /** `getSkillForToday`: the selection from the fixed catalogue. A skill is
      returned exactly when the interests are empty or name a listed
      category; it is a catalogue skill of one of the interests, and a
      completed one only once every skill of the interests is completed. */
  function GetSkillForToday(interests: seq<string>, completedSkillIds: seq<string>, dayOfYear: nat): (r: Option<Skill>)
    ensures r.Some? <==> |interests| == 0 || exists c :: c in interests && c in SkillCategories
    ensures r.Some? ==> r.value in SkillsDatabase
    ensures r.Some? && |interests| > 0 ==> r.value.category in interests
    ensures r.Some? && r.value.id in completedSkillIds ==>
              forall s :: s in InterestPool(SkillsDatabase, interests) ==> s.id in completedSkillIds
  {
    CatalogueWellFormed();
    InterestPoolNonEmpty(SkillsDatabase, interests);
    SkillForToday(SkillsDatabase, interests, completedSkillIds, dayOfYear)
  }

  /** The entries of a catalogue in one category, in catalogue order. */
  function SkillsInCategory(catalogue: seq<Skill>, category: string): (r: seq<Skill>)
    ensures forall i :: 0 <= i < |r| ==> r[i] in catalogue && r[i].category == category
    ensures forall i :: 0 <= i < |catalogue| && catalogue[i].category == category ==> catalogue[i] in r
  {
    Filter((s: Skill) => s.category == category, catalogue)
  }

  /** `getSkillsByCategory`: the entries of the fixed catalogue in one
      category, of which every category has at least one. */
  function GetSkillsByCategory(category: SkillCategory): (r: seq<Skill>)
    ensures |r| > 0
    ensures forall i :: 0 <= i < |r| ==> r[i] in SkillsDatabase && r[i].category == category
    ensures forall i :: 0 <= i < |SkillsDatabase| && SkillsDatabase[i].category == category ==> SkillsDatabase[i] in r
  {
    CatalogueWellFormed();
    SkillsInCategoryNonEmpty(SkillsDatabase, category);
    SkillsInCategory(SkillsDatabase, category)
  }

  /** In a well-formed catalogue every listed category has a skill. */
  lemma SkillsInCategoryNonEmpty(catalogue: seq<Skill>, category: string)
    requires WellFormedCatalogue(catalogue)
    ensures |SkillsInCategory(catalogue, category)| > 0 <==> category in SkillCategories
  {
    var r := SkillsInCategory(catalogue, category);
    if category in SkillCategories {
      var s :| s in catalogue && s.category == category;
      var k :| 0 <= k < |catalogue| && catalogue[k] == s;
    }
    if |r| > 0 {
      var k :| 0 <= k < |catalogue| && catalogue[k] == r[0];
    }
  }

  /** `getSkillsByCategory(c)` is the interest pool of the single interest `c`:
      the same entries in the same (catalogue) order. */
  lemma SkillsByCategoryIsInterestPool(catalogue: seq<Skill>, category: string)
    ensures SkillsInCategory(catalogue, category) == InterestPool(catalogue, [category])
  {
    var byCategory := (s: Skill) => s.category == category;
    var eligible := (s: Skill) => Eligible([category], s);
    assert forall s: Skill :: byCategory(s) == eligible(s);
    FilterAgree(byCategory, eligible, catalogue);
  }

  /** In a well-formed catalogue the interest pool is non-empty exactly when
      the interest list is empty or names at least one listed category. */
  lemma InterestPoolNonEmpty(catalogue: seq<Skill>, interests: seq<string>)
    requires WellFormedCatalogue(catalogue)
    ensures |InterestPool(catalogue, interests)| > 0 <==>
              |interests| == 0 || exists c :: c in interests && c in SkillCategories
  {
    var pool := InterestPool(catalogue, interests);
    if |interests| == 0 || exists c :: c in interests && c in SkillCategories {
      var c := if |interests| == 0 then SkillCategories[0] else var c' :| c' in interests && c' in SkillCategories; c';
      EligibleEntry(catalogue, interests, c);
    }
    if |pool| > 0 && |interests| > 0 {
      var k :| 0 <= k < |catalogue| && catalogue[k] == pool[0];
      assert pool[0].category in interests && pool[0].category in SkillCategories;
    }
  }

  /** A well-formed catalogue has an entry of category `c`, which passes an
      interest filter that admits `c`. */
  lemma EligibleEntry(catalogue: seq<Skill>, interests: seq<string>, c: string)
    requires WellFormedCatalogue(catalogue)
    requires c in SkillCategories && (|interests| == 0 || c in interests)
    ensures |InterestPool(catalogue, interests)| > 0
  {
    var s :| s in catalogue && s.category == c;
    var k :| 0 <= k < |catalogue| && catalogue[k] == s;
    assert Eligible(interests, catalogue[k]);
  }

  /** In a catalogue without repeated ids no skill occurs twice in the pool
      the selector indexes. */
  lemma DailyPoolDistinct(catalogue: seq<Skill>, interests: seq<string>, completedSkillIds: seq<string>)
    requires WellFormedCatalogue(catalogue)
    ensures Distinct(DailyPool(catalogue, interests, completedSkillIds))
  {
    assert Distinct(catalogue);
    FilterDistinct((s: Skill) => Eligible(interests, s), catalogue);
    FilterDistinct((s: Skill) => s.id !in completedSkillIds, InterestPool(catalogue, interests));
  }

  /** With a fixed pool the next day selects the next entry, wrapping around
      after the last. */
  lemma NextDayNextSkill(pool: seq<Skill>, dayOfYear: nat)
    requires |pool| > 0
    ensures var k := dayOfYear % |pool|;
            PickForDay(pool, dayOfYear) == Some(pool[k]) &&
            PickForDay(pool, dayOfYear + 1) == Some(pool[if k + 1 == |pool| then 0 else k + 1])
  {
    var n := |pool|;
    var k := dayOfYear % n;
    if k + 1 == n {
      ModUnique(dayOfYear + 1, dayOfYear / n + 1, 0, n);
    } else {
      ModUnique(dayOfYear + 1, dayOfYear / n, k + 1, n);
    }
  }

  /** Over any `|pool|` consecutive days every pool entry is selected, and
      when the pool has no repeated entry (as `DailyPool` has not), each is
      selected exactly once. */
  lemma RotationCoversPool(pool: seq<Skill>, start: nat)
    requires |pool| > 0
    ensures forall s :: s in pool ==>
              exists d :: start <= d < start + |pool| && PickForDay(pool, d) == Some(s)
    ensures Distinct(pool) ==>
              forall d1, d2 :: start <= d1 < d2 < start + |pool| ==> PickForDay(pool, d1) != PickForDay(pool, d2)
  {
    var n := |pool|;
    var r := start % n;
    forall s | s in pool
      ensures exists d :: start <= d < start + n && PickForDay(pool, d) == Some(s)
    {
      var j :| 0 <= j < n && pool[j] == s;
      var d := if j >= r then start + (j - r) else start + (j - r + n);
      if j >= r {
        ModUnique(d, start / n, j, n);
      } else {
        ModUnique(d, start / n + 1, j, n);
      }
      assert PickForDay(pool, d) == Some(s);
    }
    if Distinct(pool) {
      forall d1: nat, d2: nat | start <= d1 < d2 < start + n
        ensures PickForDay(pool, d1) != PickForDay(pool, d2)
      {
        ModInjective(d1, d2, n);
        assert pool[d1 % n] != pool[d2 % n];
      }
    }
  }
}
