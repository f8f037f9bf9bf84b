/**
 * `find_matching_components`: assigns status-page components to configured target
 * locations by case-insensitive substring containment.
 */
module Matcher {
  import opened Wrappers
  import opened AsciiText
  import opened Config
  import opened OrderedDict

  /** One record of the status feed; either field may be missing from the JSON object. */
  datatype Component = Component(name: Option<string>, status: Option<string>)

  /** `comp.get("name", "")` */
  function NameOf(c: Component): (r: string)
    ensures c.name.None? ==> r == ""
    ensures c.name.Some? ==> r == c.name.value
  {
    c.name.GetOr("")
  }

  /** `comp.get("status", "unknown")` */
  function StatusOf(c: Component): (r: string)
    ensures c.status.None? ==> r == "unknown"
    ensures c.status.Some? ==> r == c.status.value
  {
    c.status.GetOr("unknown")
  }

  /** The value stored for a matched target: `{"component_name": ..., "status": ...}`. */
  datatype Match = Match(componentName: string, status: string)

  /** What a component contributes when it is matched. */
  function EntryOf(c: Component): Match {
    Match(NameOf(c), StatusOf(c))
  }

  /** The first target, in target order, that occurs in `nameLower`; the inner loop with its `break`. */
  function FirstTarget(nameLower: string, targets: seq<string>): (r: Option<string>)
    ensures r.Some? ==> r.value in targets && Contains(nameLower, r.value)
  {
    if targets == [] then None
    else if Contains(nameLower, targets[0]) then Some(targets[0])
    else FirstTarget(nameLower, targets[1..])
  }

  /** The target component `c` is assigned to, if any. */
  function Pick(c: Component, targets: seq<string>): Option<string> {
    FirstTarget(Lower(NameOf(c)), targets)
  }

  /** One turn of the outer loop: record `c` under its first matching target, if any. */
  function Assign(m: Dict<string, Match>, c: Component, targets: seq<string>): Dict<string, Match> {
    match Pick(c, targets)
    case None => m
    case Some(t) => Put(m, t, EntryOf(c))
  }

  /** The dictionary after the outer loop has run over all of `cs`, in order. */
  function MatchAll(cs: seq<Component>, targets: seq<string>): Dict<string, Match>
    decreases |cs|
  {
    if cs == [] then Empty()
    else Assign(MatchAll(cs[..|cs| - 1], targets), cs[|cs| - 1], targets)
  }

  /** `find_matching_components(components, targets)` */
  method FindMatchingComponents(components: seq<Component>, targets: seq<string>)
    returns (matches: Dict<string, Match>)
    ensures matches == MatchAll(components, CleanAll(targets))
  {
    var targetsClean := CleanAll(targets);
    matches := Dict([], map[]);
    var i := 0;
    while i < |components|
      invariant 0 <= i <= |components|
      invariant matches == MatchAll(components[..i], targetsClean)
    {
      var comp := components[i];
      var name := NameOf(comp);
      var nameLower := Lower(name);
      var status := StatusOf(comp);
      ghost var before := matches;
      assert components[..i + 1][..i] == components[..i];
      var j := 0;
      while j < |targetsClean|
        invariant 0 <= j <= |targetsClean|
        invariant matches == before
        invariant FirstTarget(nameLower, targetsClean) == FirstTarget(nameLower, targetsClean[j..])
      {
        var target := targetsClean[j];
        if Contains(nameLower, target) {
          matches := Put(matches, target, Match(name, status));
          break;
        }
        assert targetsClean[j..][1..] == targetsClean[j + 1..];
        j := j + 1;
      }
      assert matches == Assign(before, comp, targetsClean);
      i := i + 1;
    }
    assert components[..i] == components;
  }

  // ---------------------------------------------------------------------------
  // Properties
  // ---------------------------------------------------------------------------

  /** `ts[k]` is `t`, occurs in `n`, and no earlier target does. */
  ghost predicate FirstAt(n: string, ts: seq<string>, t: string, k: int) {
    0 <= k < |ts| && ts[k] == t && Contains(n, ts[k]) && forall j :: 0 <= j < k ==> !Contains(n, ts[j])
  }

  /** A component goes to target `t` exactly when `t` sits at a position of the target list
      where it occurs in the name and no earlier target does. */
  lemma {:induction false} FirstTargetIsFirst(n: string, ts: seq<string>, t: string)
    ensures FirstTarget(n, ts) == Some(t) <==> exists k :: FirstAt(n, ts, t, k)
  {
    if ts != [] {
      var rest := ts[1..];
      FirstTargetIsFirst(n, rest, t);
      if Contains(n, ts[0]) {
        if ts[0] == t {
          assert FirstAt(n, ts, t, 0);
        }
        if exists k :: FirstAt(n, ts, t, k) {
          var k :| FirstAt(n, ts, t, k);
          assert k == 0;
        }
      } else {
        if exists k :: FirstAt(n, rest, t, k) {
          var k :| FirstAt(n, rest, t, k);
          assert forall j :: 0 < j <= k ==> ts[j] == rest[j - 1];
          assert FirstAt(n, ts, t, k + 1);
        }
        if exists k :: FirstAt(n, ts, t, k) {
          var k :| FirstAt(n, ts, t, k);
          assert k > 0;
          assert forall j :: 0 <= j < k ==> rest[j] == ts[j + 1];
          assert FirstAt(n, rest, t, k - 1);
        }
      }
    }
  }

  /** A component none of whose targets occurs in its name contributes nothing. */
  lemma {:induction false} FirstTargetNone(n: string, ts: seq<string>)
    ensures FirstTarget(n, ts) == None <==> forall k :: 0 <= k < |ts| ==> !Contains(n, ts[k])
  {
    if ts != [] {
      FirstTargetNone(n, ts[1..]);
      assert forall k :: 0 < k < |ts| ==> ts[k] == ts[1..][k - 1];
    }
  }

  /** The result is a well-formed dictionary whose keys are all among the targets. */
  lemma {:induction false} MatchAllKeysAreTargets(cs: seq<Component>, ts: seq<string>)
    ensures Valid(MatchAll(cs, ts))
    ensures forall t :: t in MatchAll(cs, ts).entries ==> t in ts
  {
    if cs != [] {
      MatchAllKeysAreTargets(cs[..|cs| - 1], ts);
    }
  }

  /** Component `cs[i]` is the one that ends up stored for `t`: it picks `t`, and no later
      component does. */
  ghost predicate LastPicker(cs: seq<Component>, ts: seq<string>, t: string, i: int) {
    0 <= i < |cs| && Pick(cs[i], ts) == Some(t)
    && forall j :: i < j < |cs| ==> Pick(cs[j], ts) != Some(t)
  }

  /** A target is matched exactly when some component picks it, and then it holds the
      name and status of the LAST component that picks it (later ones overwrite). */
  lemma {:induction false} MatchAllLastWins(cs: seq<Component>, ts: seq<string>, t: string)
    ensures t in MatchAll(cs, ts).entries <==> exists i :: 0 <= i < |cs| && Pick(cs[i], ts) == Some(t)
    ensures t in MatchAll(cs, ts).entries ==>
            exists i :: LastPicker(cs, ts, t, i) && MatchAll(cs, ts).entries[t] == EntryOf(cs[i])
  {
    if cs != [] {
      var n := |cs| - 1;
      var init := cs[..n];
      MatchAllLastWins(init, ts, t);
      assert forall i :: 0 <= i < n ==> init[i] == cs[i];
      if Pick(cs[n], ts) == Some(t) {
        assert LastPicker(cs, ts, t, n);
      } else if t in MatchAll(init, ts).entries {
        var i :| LastPicker(init, ts, t, i) && MatchAll(init, ts).entries[t] == EntryOf(init[i]);
        assert LastPicker(cs, ts, t, i);
      }
    }
  }

  /** Every stored status is the feed's own status of some component, or "unknown" when
      that component has none. */
  lemma StatusComesFromFeed(cs: seq<Component>, ts: seq<string>, t: string)
    requires t in MatchAll(cs, ts).entries
    ensures exists i :: 0 <= i < |cs| && MatchAll(cs, ts).entries[t].status ==
                        (if cs[i].status.Some? then cs[i].status.value else "unknown")
  {
    MatchAllLastWins(cs, ts, t);
    var i :| LastPicker(cs, ts, t, i) && MatchAll(cs, ts).entries[t] == EntryOf(cs[i]);
  }

  /** Every stored component name is some component's own name, or "" when that component
      has none. */
  lemma NameComesFromFeed(cs: seq<Component>, ts: seq<string>, t: string)
    requires t in MatchAll(cs, ts).entries
    ensures exists i :: 0 <= i < |cs| && MatchAll(cs, ts).entries[t].componentName ==
                        (if cs[i].name.Some? then cs[i].name.value else "")
  {
    MatchAllLastWins(cs, ts, t);
    var i :| LastPicker(cs, ts, t, i) && MatchAll(cs, ts).entries[t] == EntryOf(cs[i]);
  }

  /** A component named "Jakarta Edge" is matched, case-insensitively, to the target "jakarta". */
  lemma ScenarioJakarta()
    ensures MatchAll([Component(Some("Jakarta Edge"), Some("operational"))], ["jakarta"]).entries
            == map["jakarta" := Match("Jakarta Edge", "operational")]
  {
    var c := Component(Some("Jakarta Edge"), Some("operational"));
    var n := Lower("Jakarta Edge");
    assert n[..7] == "jakarta";
    assert Contains(n, "jakarta");
    assert MatchAll([c], ["jakarta"]) == Assign(MatchAll([], ["jakarta"]), c, ["jakarta"]);
  }

  /** When two components pick the same target, the later one in feed order is kept. */
  lemma LaterComponentOverwrites()
    ensures MatchAll([Component(Some("Jakarta Edge"), Some("operational")),
                      Component(Some("Jakarta Backup"), None)], ["jakarta"]).entries
            == map["jakarta" := Match("Jakarta Backup", "unknown")]
  {
    var c1 := Component(Some("Jakarta Edge"), Some("operational"));
    var c2 := Component(Some("Jakarta Backup"), None);
    var n1 := Lower("Jakarta Edge");
    var n2 := Lower("Jakarta Backup");
    assert n1[..7] == "jakarta" && n2[..7] == "jakarta";
    assert Contains(n1, "jakarta") && Contains(n2, "jakarta");
    assert [c1, c2][..1] == [c1];
    assert MatchAll([c1], ["jakarta"]) == Assign(MatchAll([], ["jakarta"]), c1, ["jakarta"]);
  }
}
