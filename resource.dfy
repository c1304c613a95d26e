/**
 * Resources (src/models/resource.rs): machines, people or tools with a
 * capacity, skills and an optional availability calendar.
 */
module Resources {
  import opened Common
  import opened Calendars

  datatype ResourceType = Primary | Secondary | Human | Consumable | Custom(name: string)

  /** A named skill with a proficiency level in [0, 1]. */
  datatype Skill = Skill(name: string, level: real)

  datatype Resource = Resource(
    id: string,
    name: string,
    resourceType: ResourceType,
    capacity: int,
    calendar: Option<Calendar>,
    skills: seq<Skill>)
  {
    function WithName(n: string): (r: Resource)
      ensures r.name == n && r.(name := name) == this
    {
      this.(name := n)
    }

    function WithCapacity(c: int): (r: Resource)
      ensures r.capacity == c && r.(capacity := capacity) == this
    {
      this.(capacity := c)
    }

    function WithCalendar(cal: Calendar): (r: Resource)
      ensures r.calendar == Some(cal) && r.(calendar := calendar) == this
    {
      this.(calendar := Some(cal))
    }

    /** Appends a skill, its level clamped to [0, 1]. */
    function WithSkill(skillName: string, level: real): (r: Resource)
      ensures |r.skills| == |skills| + 1 && r.skills[..|skills|] == skills
      ensures r.skills[|skills|].name == skillName
      ensures 0.0 <= r.skills[|skills|].level <= 1.0
      ensures 0.0 <= level <= 1.0 ==> r.skills[|skills|].level == level
      ensures r.(skills := skills) == this
    {
      var clamped := if level < 0.0 then 0.0 else if level > 1.0 then 1.0 else level;
      this.(skills := skills + [Skill(skillName, clamped)])
    }

    /** Whether some skill carries the name `n` (an `iter().any`). */
    predicate HasSkill(n: string)
    {
      AnySkillNamed(skills, n)
    }

    /** `skill_level`: the level of the first skill named `n`, 0 when there is none. */
    function SkillLevel(n: string): real
    {
      FirstSkillLevel(skills, n)
    }

    /** No calendar means always available; otherwise the calendar decides. */
    predicate IsAvailableAt(timeMs: int)
    {
      match calendar
      case None => true
      case Some(cal) => cal.IsWorkingTime(timeMs)
    }
  }

  predicate AnySkillNamed(skills: seq<Skill>, n: string)
  {
    skills != [] && (skills[0].name == n || AnySkillNamed(skills[1..], n))
  }

  /** `has_skill(n)` holds exactly when some skill is named `n`. */
  lemma {:induction false} HasSkillMeaning(skills: seq<Skill>, n: string)
    ensures AnySkillNamed(skills, n) <==> exists i :: 0 <= i < |skills| && skills[i].name == n
  {
    if skills != [] {
      HasSkillMeaning(skills[1..], n);
      assert forall i :: 1 <= i < |skills| ==> skills[i] == skills[1..][i - 1];
    }
  }

  /** The level of the first skill named `n` (a `find` then `map`), 0 when none is. */
  function FirstSkillLevel(skills: seq<Skill>, n: string): (r: real)
    ensures !AnySkillNamed(skills, n) ==> r == 0.0
    ensures AnySkillNamed(skills, n) ==>
      exists k :: 0 <= k < |skills| && skills[k].name == n && skills[k].level == r &&
        forall j :: 0 <= j < k ==> skills[j].name != n
  {
    if skills == [] then 0.0
    else if skills[0].name == n then skills[0].level
    else
      var r := FirstSkillLevel(skills[1..], n);
      assert forall i :: 1 <= i < |skills| ==> skills[i] == skills[1..][i - 1];
      r
  }

  /** A skill added under a new name reads back with its clamped level; before, that name read 0. */
  lemma AddedSkillLevel(r: Resource, n: string, level: real)
    requires !r.HasSkill(n)
    ensures r.SkillLevel(n) == 0.0
    ensures 0.0 <= r.WithSkill(n, level).SkillLevel(n) <= 1.0
    ensures 0.0 <= level <= 1.0 ==> r.WithSkill(n, level).SkillLevel(n) == level
  {
    var s := r.WithSkill(n, level).skills;
    HasSkillMeaning(r.skills, n);
    HasSkillMeaning(s, n);
    assert s[|r.skills|].name == n;
    var k :| 0 <= k < |s| && s[k].name == n && s[k].level == FirstSkillLevel(s, n) &&
      forall j :: 0 <= j < k ==> s[j].name != n;
    assert k == |r.skills|;
  }

  /** A skill added with `with_skill` is then reported by `has_skill`. */
  lemma AddedSkillIsPresent(r: Resource, n: string, level: real)
    ensures r.WithSkill(n, level).HasSkill(n)
  {
    var s := r.WithSkill(n, level).skills;
    HasSkillMeaning(s, n);
    assert s[|r.skills|].name == n;
  }

  /** `Resource::new`: capacity 1, no calendar, no skills. */
  function NewResource(id: string, resourceType: ResourceType): (r: Resource)
    ensures r.id == id && r.resourceType == resourceType
    ensures r.capacity == 1 && r.calendar == None && r.skills == [] && r.name == ""
  {
    Resource(id, "", resourceType, 1, None, [])
  }

  /** `primary`, `human` and `secondary`: a new resource of that type. */
  function PrimaryResource(id: string): (r: Resource)
    ensures r.id == id && r.resourceType == Primary
    ensures r.capacity == 1 && r.calendar == None && r.skills == [] && r.name == ""
  {
    NewResource(id, Primary)
  }

  function HumanResource(id: string): (r: Resource)
    ensures r.id == id && r.resourceType == Human
    ensures r.capacity == 1 && r.calendar == None && r.skills == [] && r.name == ""
  {
    NewResource(id, Human)
  }

  function SecondaryResource(id: string): (r: Resource)
    ensures r.id == id && r.resourceType == Secondary
    ensures r.capacity == 1 && r.calendar == None && r.skills == [] && r.name == ""
  {
    NewResource(id, Secondary)
  }

  /** Without a calendar a resource is available at every instant. */
  lemma AvailableWithoutCalendar(r: Resource, t: int)
    requires r.calendar == None
    ensures r.IsAvailableAt(t)
  {
  }

  /** With a calendar, availability is that calendar's working time. */
  lemma AvailabilityFollowsCalendar(r: Resource, cal: Calendar, t: int)
    ensures r.WithCalendar(cal).IsAvailableAt(t) == cal.IsWorkingTime(t)
  {
  }

  /** A fresh resource has no skills and is always available. */
  lemma NewResourceDefaults(id: string, ty: ResourceType, n: string, t: int)
    ensures !NewResource(id, ty).HasSkill(n)
    ensures NewResource(id, ty).IsAvailableAt(t)
  {
  }
}
