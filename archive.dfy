/** The progress page of src/pages/Archive.tsx: the completed skills most
    recent first, a relative-date label per skill, and the number of distinct
    categories. The clock is the explicit argument `nowMs`. */
module Archive {
  import opened Common
  import opened Sorting
  import opened Storage
  import Skills

  /** The sort key: the completion instant. */
  function CompletedAt(c: CompletedSkill): int
  {
    c.completedDate
  }

  /** The page's list: the stored completed skills, sorted in place most
      recent first. */
  method ArchiveView(store: LocalStore) returns (view: array<CompletedSkill>)
    ensures fresh(view)
    ensures NewestFirst(view[..], CompletedAt)
    ensures multiset(view[..]) == multiset(store.completedSkills)
  {
    var skills := store.GetCompletedSkills();
    view := new CompletedSkill[|skills|](i requires 0 <= i < |skills| => skills[i]);
    assert view[..] == skills;
    SortNewestFirst(view, CompletedAt);
  }

  /** The label `getDaysAgo` renders. */
  datatype DaysAgo = Today | Yesterday | DaysBefore(days: nat)

  /** `Math.abs`. */
  function Abs(x: int): (a: nat)
    ensures a == x || a == -x
  {
    if x < 0 then -x else x
  }

  /** Whole 24-hour periods between two instants, in either direction. */
  function ElapsedDays(thenMs: int, nowMs: int): (n: nat)
    ensures n * DayMs <= Abs(nowMs - thenMs) < n * DayMs + DayMs
  {
    Abs(nowMs - thenMs) / DayMs
  }

  /** `getDaysAgo`: "Today" under one whole period, "Yesterday" for one,
      "n days ago" for more. */
  function DaysAgoLabel(thenMs: int, nowMs: int): (l: DaysAgo)
    ensures l == Today <==> Abs(nowMs - thenMs) < DayMs
    ensures l == Yesterday <==> DayMs <= Abs(nowMs - thenMs) < 2 * DayMs
    ensures l.DaysBefore? ==> l.days >= 2 && l.days == ElapsedDays(thenMs, nowMs)
  {
    var diffDays := ElapsedDays(thenMs, nowMs);
    if diffDays == 0 then Today
    else if diffDays == 1 then Yesterday
    else DaysBefore(diffDays)
  }

  /** An instant `k` milliseconds in the future gets the label of one `k`
      milliseconds in the past. */
  lemma FutureLabelledAsPast(nowMs: int, k: int)
    ensures DaysAgoLabel(nowMs + k, nowMs) == DaysAgoLabel(nowMs - k, nowMs)
  {
    assert Abs(nowMs - (nowMs + k)) == Abs(nowMs - (nowMs - k));
  }

  /** The label counts 24-hour periods, not calendar days: a completion a
      minute before midnight, seen two minutes later, is "Today". */
  lemma LabelIgnoresMidnight(day: int)
    ensures var thenMs, nowMs := day * DayMs + DayMs - 60000, (day + 1) * DayMs + 60000;
      DayOf(nowMs) == DayOf(thenMs) + 1 && DaysAgoLabel(thenMs, nowMs) == Today
  {
    var thenMs, nowMs := day * DayMs + DayMs - 60000, (day + 1) * DayMs + 60000;
    ModUnique(thenMs, day, DayMs - 60000, DayMs);
    ModUnique(nowMs, day + 1, 60000, DayMs);
  }

  /** `skills.map(skill => skill.category)`. */
  function CategoryList(skills: seq<CompletedSkill>): (cs: seq<string>)
    ensures |cs| == |skills|
    ensures forall i :: 0 <= i < |skills| ==> cs[i] == skills[i].skill.category
  {
    seq(|skills|, i requires 0 <= i < |skills| => skills[i].skill.category)
  }

  /** The "Categories" figure: `new Set(skills.map(s => s.category)).size`. */
  function CategoryCount(skills: seq<CompletedSkill>): (n: nat)
    ensures n == 0 <==> |skills| == 0
  {
    var categories := CategoryList(skills);
    assert |skills| > 0 ==> categories[0] in Elements(categories);
    |Elements(categories)|
  }

  /** There are never more categories than completed skills. */
  lemma CategoryCountBounded(skills: seq<CompletedSkill>)
    ensures CategoryCount(skills) <= |skills|
  {
    ElementsBounded(CategoryList(skills));
  }

  /** A category is counted exactly when some completed skill has it. */
  lemma CategoryCounted(skills: seq<CompletedSkill>, category: string)
    ensures category in Elements(CategoryList(skills)) <==> exists c :: c in skills && c.skill.category == category
  {
    var cs := CategoryList(skills);
    if category in Elements(cs) {
      var i :| 0 <= i < |cs| && cs[i] == category;
      assert skills[i] in skills;
    }
    if exists c :: c in skills && c.skill.category == category {
      var c :| c in skills && c.skill.category == category;
      var i :| 0 <= i < |skills| && skills[i] == c;
      assert cs[i] == category;
    }
  }

  /** Sorting the list does not change the figure. */
  lemma CategoryCountOrderIndependent(a: seq<CompletedSkill>, b: seq<CompletedSkill>)
    requires multiset(a) == multiset(b)
    ensures CategoryCount(a) == CategoryCount(b)
  {
    forall c ensures c in a <==> c in b {
      assert c in a <==> c in multiset(a);
      assert c in b <==> c in multiset(b);
    }
    forall x ensures x in Elements(CategoryList(a)) <==> x in Elements(CategoryList(b)) {
      CategoryCounted(a, x);
      CategoryCounted(b, x);
    }
    assert Elements(CategoryList(a)) == Elements(CategoryList(b));
  }

  /** Skills taken from the catalogue span at most its ten categories. */
  lemma CategoryCountAtMostCatalogue(skills: seq<CompletedSkill>)
    requires forall i :: 0 <= i < |skills| ==> skills[i].skill in Skills.SkillsDatabase
    ensures CategoryCount(skills) <= |Skills.SkillCategories|
  {
    Skills.CategoriesListed();
    var cs := CategoryList(skills);
    forall x | x in Elements(cs) ensures x in Elements(Skills.SkillCategories) {
      var i :| 0 <= i < |cs| && cs[i] == x;
      var k :| 0 <= k < |Skills.SkillsDatabase| && Skills.SkillsDatabase[k] == skills[i].skill;
    }
    SubsetNoLarger(Elements(cs), Elements(Skills.SkillCategories));
    ElementsBounded(Skills.SkillCategories);
  }
}
