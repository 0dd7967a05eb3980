/** The in-memory repositories: lists and a dictionary changed in place. */
module InMemory {
  import opened Models
  import opened Keyed
  import opened Decision
  import Memory = Store

  class InMemoryProjectRepository {
    var projects: seq<Project>

    constructor (projects: seq<Project>)
      ensures this.projects == projects
    {
      this.projects := projects;
    }

    method FindIndex(id: Uuid) returns (index: Option<nat>)
      ensures index.None? ==> forall j :: 0 <= j < |projects| ==> projects[j].id != id
      ensures index.Some? ==> index.value < |projects| && projects[index.value].id == id
                              && forall j :: 0 <= j < index.value ==> projects[j].id != id
    {
      for i := 0 to |projects|
        invariant forall j :: 0 <= j < i ==> projects[j].id != id
      {
        if projects[i].id == id {
          return Some(i);
        }
      }
      return None;
    }

    method Get(id: Uuid) returns (project: Option<Project>)
      ensures project == Find(projects, ProjectKey, id)
    {
      var index := FindIndex(id);
      match index {
        case None =>
          Missing(projects, ProjectKey, id);
          return None;
        case Some(i) =>
          AtFirstIndex(projects, ProjectKey, id, i, projects[i]);
          return Some(projects[i]);
      }
    }

    method Create(id: Uuid, details: ProjectCreate) returns (project: Project)
      modifies this
      ensures project == Project(id, details) && projects == old(projects) + [project]
    {
      project := Project(id, details);
      projects := projects + [project];
    }

    method Update(id: Uuid, details: ProjectCreate) returns (project: Option<Project>)
      modifies this
      ensures projects == ReplaceFirst(old(projects), ProjectKey, id, Project(id, details))
      ensures project == if Find(old(projects), ProjectKey, id).Some? then Some(Project(id, details)) else None
    {
      var index := FindIndex(id);
      match index {
        case None =>
          Missing(projects, ProjectKey, id);
          NothingReplaced(projects, ProjectKey, id, Project(id, details));
          return None;
        case Some(i) =>
          AtFirstIndex(projects, ProjectKey, id, i, Project(id, details));
          projects := projects[i := Project(id, details)];
          return Some(Project(id, details));
      }
    }

    method Delete(id: Uuid) returns (deleted: bool)
      modifies this
      ensures projects == RemoveFirst(old(projects), ProjectKey, id)
      ensures deleted <==> Find(old(projects), ProjectKey, id).Some?
    {
      var index := FindIndex(id);
      match index {
        case None =>
          Missing(projects, ProjectKey, id);
          NothingRemoved(projects, ProjectKey, id);
          return false;
        case Some(i) =>
          AtFirstIndex(projects, ProjectKey, id, i, projects[i]);
          projects := projects[..i] + projects[i + 1..];
          return true;
      }
    }

    method ReplaceAll(projects: seq<Project>)
      modifies this
      ensures this.projects == projects
    {
      this.projects := projects;
    }
  }

  class InMemoryRuleRepository {
    var rules: seq<FailureRule>

    constructor (rules: seq<FailureRule>)
      ensures this.rules == rules
    {
      this.rules := rules;
    }

    method FindIndex(id: Uuid) returns (index: Option<nat>)
      ensures index.None? ==> forall j :: 0 <= j < |rules| ==> rules[j].id != id
      ensures index.Some? ==> index.value < |rules| && rules[index.value].id == id
                              && forall j :: 0 <= j < index.value ==> rules[j].id != id
    {
      for i := 0 to |rules|
        invariant forall j :: 0 <= j < i ==> rules[j].id != id
      {
        if rules[i].id == id {
          return Some(i);
        }
      }
      return None;
    }

    method Get(id: Uuid) returns (rule: Option<FailureRule>)
      ensures rule == Find(rules, RuleKey, id)
    {
      var index := FindIndex(id);
      if index.None? {
        Missing(rules, RuleKey, id);
        return None;
      }
      AtFirstIndex(rules, RuleKey, id, index.value, rules[index.value]);
      return Some(rules[index.value]);
    }

    method Create(id: Uuid, data: RuleCreate) returns (rule: FailureRule)
      modifies this
      ensures rule == FailureRule(id, data) && rules == old(rules) + [rule]
    {
      rule := FailureRule(id, data);
      rules := rules + [rule];
    }

    method Update(id: Uuid, data: RuleCreate) returns (rule: Option<FailureRule>)
      modifies this
      ensures rules == ReplaceFirst(old(rules), RuleKey, id, FailureRule(id, data))
      ensures rule == if Find(old(rules), RuleKey, id).Some? then Some(FailureRule(id, data)) else None
    {
      var index := FindIndex(id);
      match index {
        case None =>
          Missing(rules, RuleKey, id);
          NothingReplaced(rules, RuleKey, id, FailureRule(id, data));
          return None;
        case Some(i) =>
          AtFirstIndex(rules, RuleKey, id, i, FailureRule(id, data));
          rules := rules[i := FailureRule(id, data)];
          return Some(FailureRule(id, data));
      }
    }

    method SetEnabled(id: Uuid, enabled: bool) returns (rule: Option<FailureRule>)
      modifies this
      ensures match Find(old(rules), RuleKey, id)
              case None => rule.None? && rules == old(rules)
              case Some(was) =>
                && rule == Some(FailureRule(was.id, was.data.(enabled := enabled)))
                && rules == ReplaceFirst(old(rules), RuleKey, id, rule.value)
    {
      var index := FindIndex(id);
      if index.None? {
        Missing(rules, RuleKey, id);
        return None;
      }
      var i := index.value;
      var changed := rules[i].(data := rules[i].data.(enabled := enabled));
      AtFirstIndex(rules, RuleKey, id, i, changed);
      rules := rules[i := changed];
      return Some(changed);
    }

    method Delete(id: Uuid) returns (deleted: bool)
      modifies this
      ensures rules == RemoveFirst(old(rules), RuleKey, id)
      ensures deleted <==> Find(old(rules), RuleKey, id).Some?
    {
      var index := FindIndex(id);
      if index.None? {
        Missing(rules, RuleKey, id);
        NothingRemoved(rules, RuleKey, id);
        return false;
      }
      var i := index.value;
      AtFirstIndex(rules, RuleKey, id, i, rules[i]);
      rules := rules[..i] + rules[i + 1..];
      return true;
    }

    method CountForProject(projectId: Uuid) returns (count: nat)
      ensures count == Memory.CountForProject(rules, projectId)
    {
      count := 0;
      var i := |rules|;
      while i > 0
        invariant 0 <= i <= |rules|
        invariant count == Memory.CountForProject(rules[i..], projectId)
      {
        i := i - 1;
        assert rules[i..][1..] == rules[i + 1..];
        count := count + (if rules[i].data.projectId == Some(projectId) then 1 else 0);
      }
      assert rules[0..] == rules;
    }

    method ReplaceAll(rules: seq<FailureRule>)
      modifies this
      ensures this.rules == rules
    {
      this.rules := rules;
    }
  }

  class InMemoryRuleRuntimeRepository {
    var states: map<Uuid, RuleRuntimeState>

    constructor ()
      ensures states == map[]
    {
      states := map[];
    }

    method Get(id: Uuid) returns (state: RuleRuntimeState)
      ensures state == Current(states, id)
    {
      state := if id in states then states[id] else FreshState(id);
    }

    method Save(state: RuleRuntimeState)
      modifies this
      ensures states == old(states)[state.ruleId := state]
    {
      states := states[state.ruleId := state];
    }

    method Reset(id: Uuid) returns (state: RuleRuntimeState)
      modifies this
      ensures states == old(states) - {id} && state == FreshState(id)
    {
      states := states - {id};
      state := FreshState(id);
    }

    method Clear() returns (count: nat)
      modifies this
      ensures states == map[] && count == |old(states)|
    {
      count := |states|;
      states := map[];
    }
  }
}
