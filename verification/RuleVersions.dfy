/**
  Rule versions: each load of the rules gives new and changed rules a fresh epoch and leaves
  the others their version, so that only affected subscriptions need to resynchronize.
 */
module RuleVersions {
  import opened Wrappers

  const U64_MAX: nat := 0xFFFF_FFFF_FFFF_FFFF

  /** A rule's name, and its full rendering, which differs whenever the rule does. */
  datatype RuleText = RuleText(name: string, canonical: string)

  datatype Entry = Entry(version: nat, canonical: string)

  datatype Delta = Delta(changed: seq<string>, removed: seq<string>, epoch: nat)

  type Versions = map<string, Entry>

  /** `RuleVersion::next`, a saturating increment. */
  function NextEpoch(epoch: nat): nat {
    if epoch >= U64_MAX then U64_MAX else epoch + 1
  }

  predicate Unchanged(versions: Versions, rule: RuleText) {
    rule.name in versions && versions[rule.name].canonical == rule.canonical
  }

  /** The entry a rule gets. */
  function EntryFor(versions: Versions, rule: RuleText, epoch: nat): Entry {
    Entry(if Unchanged(versions, rule) then versions[rule.name].version else epoch, rule.canonical)
  }

  function NextVersions(versions: Versions, rules: seq<RuleText>, epoch: nat): Versions {
    if rules == [] then map[]
    else
      var last := rules[|rules| - 1];
      NextVersions(versions, rules[..|rules| - 1], epoch)[last.name := EntryFor(versions, last, epoch)]
  }

  function ChangedNames(versions: Versions, rules: seq<RuleText>): seq<string> {
    if rules == [] then []
    else
      var last := rules[|rules| - 1];
      ChangedNames(versions, rules[..|rules| - 1]) + if Unchanged(versions, last) then [] else [last.name]
  }

  class RuleVersionTracker {
    var epoch: nat
    var versions: Versions

    constructor ()
      ensures epoch == 0 && versions == map[]
    {
      epoch, versions := 0, map[];
    }

    /** Replaces the tracked rules and reports what changed. */
    method Install(rules: seq<RuleText>) returns (delta: Delta)
      modifies this
      ensures versions == NextVersions(old(versions), rules, NextEpoch(old(epoch)))
      ensures delta.changed == ChangedNames(old(versions), rules) && delta.epoch == NextEpoch(old(epoch))
      ensures old(epoch) + 1 < 0x1_0000_0000 * 0x1_0000_0000 ==> delta.epoch == old(epoch) + 1
      ensures forall name :: name in delta.removed <==> name in old(versions) && name !in versions
      ensures forall i, j :: 0 <= i < j < |delta.removed| ==> delta.removed[i] != delta.removed[j]
      ensures forall name :: name in delta.changed || name in delta.removed
                        <==> Touches(Tracker(old(epoch), old(versions)), rules, name)
      ensures Installs(Tracker(old(epoch), old(versions)), rules, Tracker(epoch, versions))
      ensures epoch == if delta.changed == [] && delta.removed == [] then old(epoch) else NextEpoch(old(epoch))
    {
      var newEpoch := NextEpoch(epoch);
      var next: Versions := map[];
      var changed, removed := [], [];
      for i := 0 to |rules|
        invariant next == NextVersions(versions, rules[..i], newEpoch)
        invariant changed == ChangedNames(versions, rules[..i])
      {
        var rule := rules[i];
        assert rules[..i + 1][..i] == rules[..i];
        if rule.name in versions && versions[rule.name].canonical == rule.canonical {
          next := next[rule.name := Entry(versions[rule.name].version, rule.canonical)];
        } else {
          next := next[rule.name := Entry(newEpoch, rule.canonical)];
          changed := changed + [rule.name];
        }
      }
      assert rules[..|rules|] == rules;
      var rest := versions.Keys;
      while rest != {}
        invariant rest <= versions.Keys
        invariant forall name :: name in removed <==> name in versions.Keys - rest && name !in next
        invariant forall i, j :: 0 <= i < j < |removed| ==> removed[i] != removed[j]
        decreases rest
      {
        var name :| name in rest;
        if name !in next {
          removed := removed + [name];
        }
        rest := rest - {name};
      }
      DeltaIsExact(Tracker(epoch, versions), rules, changed, removed);
      versions := next;
      if changed != [] || removed != [] {
        epoch := newEpoch;
      }
      delta := Delta(changed, removed, newEpoch);
    }
  }

  // ----- one install -----

  ghost predicate UniqueNames(rules: seq<RuleText>) {
    forall i, j :: 0 <= i < j < |rules| ==> rules[i].name != rules[j].name
  }

  lemma {:induction false} NextVersionsNames(versions: Versions, rules: seq<RuleText>, epoch: nat, name: string)
    ensures name in NextVersions(versions, rules, epoch) <==> exists r :: r in rules && r.name == name
    decreases |rules|
  {
    if rules != [] {
      var init, last := rules[..|rules| - 1], rules[|rules| - 1];
      NextVersionsNames(versions, init, epoch, name);
      assert rules == init + [last];
      assert last in rules && forall r :: r in rules <==> r in init || r == last;
    }
  }

  lemma {:induction false} NextVersionsEntries(versions: Versions, rules: seq<RuleText>, epoch: nat)
    requires UniqueNames(rules)
    ensures forall r :: r in rules ==>
              r.name in NextVersions(versions, rules, epoch)
              && NextVersions(versions, rules, epoch)[r.name] == EntryFor(versions, r, epoch)
    decreases |rules|
  {
    if rules != [] {
      var init, last := rules[..|rules| - 1], rules[|rules| - 1];
      NextVersionsEntries(versions, init, epoch);
      assert rules == init + [last];
    }
  }

  lemma {:induction false} ChangedNamesMembers(versions: Versions, rules: seq<RuleText>, name: string)
    ensures name in ChangedNames(versions, rules)
       <==> exists r :: r in rules && r.name == name && !Unchanged(versions, r)
    decreases |rules|
  {
    if rules != [] {
      var init, last := rules[..|rules| - 1], rules[|rules| - 1];
      ChangedNamesMembers(versions, init, name);
      assert rules == init + [last];
      assert last in rules && forall r :: r in rules <==> r in init || r == last;
      if name in ChangedNames(versions, init) {
        var r :| r in init && r.name == name && !Unchanged(versions, r);
        assert r in rules;
      }
    }
  }

  datatype Tracker = Tracker(epoch: nat, versions: Versions)

  /** The install changed or removed the rule. */
  ghost predicate Touches(t: Tracker, rules: seq<RuleText>, name: string) {
    (exists r :: r in rules && r.name == name && !Unchanged(t.versions, r)) ||
    (name in t.versions && forall r :: r in rules ==> r.name != name)
  }

  /** The names collected while installing are those of the touched rules. */
  lemma {:induction false} DeltaIsExact(t: Tracker, rules: seq<RuleText>, changed: seq<string>, removed: seq<string>)
    requires changed == ChangedNames(t.versions, rules)
    requires forall name ::
               name in removed <==>
                 name in t.versions && name !in NextVersions(t.versions, rules, NextEpoch(t.epoch))
    ensures forall name :: name in changed || name in removed <==> Touches(t, rules, name)
    ensures changed == [] && removed == [] <==> !exists name :: Touches(t, rules, name)
  {
    forall name
      ensures name in changed || name in removed <==> Touches(t, rules, name)
    {
      ChangedNamesMembers(t.versions, rules, name);
      NextVersionsNames(t.versions, rules, NextEpoch(t.epoch), name);
    }
    if changed != [] {
      assert changed[0] in changed;
    } else if removed != [] {
      assert removed[0] in removed;
    }
  }

  /** The tracker after an install. */
  ghost predicate Installs(t: Tracker, rules: seq<RuleText>, t': Tracker) {
    && t'.versions == NextVersions(t.versions, rules, NextEpoch(t.epoch))
    && t'.epoch == if (exists name :: Touches(t, rules, name)) then NextEpoch(t.epoch) else t.epoch
  }

  ghost predicate VersionsWithinEpoch(t: Tracker) {
    forall name :: name in t.versions ==> t.versions[name].version <= t.epoch
  }

  function VersionOf(t: Tracker, name: string): Option<nat> {
    if name in t.versions then Some(t.versions[name].version) else None
  }

  /** An install gives a rule the new epoch if it touched it and keeps it, and its old version otherwise. */
  lemma InstallEffect(t: Tracker, rules: seq<RuleText>, t': Tracker, name: string)
    requires UniqueNames(rules) && Installs(t, rules, t')
    ensures !Touches(t, rules, name) ==> VersionOf(t', name) == VersionOf(t, name)
    ensures Touches(t, rules, name) ==> VersionOf(t', name) in {None, Some(NextEpoch(t.epoch))}
    ensures Touches(t, rules, name) ==> t'.epoch == NextEpoch(t.epoch)
  {
    NextVersionsEntries(t.versions, rules, NextEpoch(t.epoch));
    NextVersionsNames(t.versions, rules, NextEpoch(t.epoch), name);
    if name in t'.versions {
      var r :| r in rules && r.name == name;
      assert t'.versions[name] == EntryFor(t.versions, r, NextEpoch(t.epoch));
      if Unchanged(t.versions, r) {
        forall r' | r' in rules && r'.name == name
          ensures r' == r
        {
          var i :| 0 <= i < |rules| && rules[i] == r;
          var j :| 0 <= j < |rules| && rules[j] == r';
        }
      }
    }
  }

  lemma InstallKeepsWithinEpoch(t: Tracker, rules: seq<RuleText>, t': Tracker)
    requires UniqueNames(rules) && Installs(t, rules, t') && VersionsWithinEpoch(t) && t.epoch <= U64_MAX
    ensures VersionsWithinEpoch(t') && t.epoch <= t'.epoch <= U64_MAX
  {
    forall name | name in t'.versions
      ensures t'.versions[name].version <= t'.epoch
    {
      InstallEffect(t, rules, t', name);
      assert VersionOf(t', name) == Some(t'.versions[name].version);
      if !Touches(t, rules, name) {
        assert name in t.versions;
      }
    }
  }

  /** A changed rule's version moves exactly when the epoch has not run out. */
  lemma ChangeShowsIff(t: Tracker, rules: seq<RuleText>, t': Tracker, name: string)
    requires UniqueNames(rules) && Installs(t, rules, t') && VersionsWithinEpoch(t) && t.epoch <= U64_MAX
    requires name in t.versions && name in t'.versions && Touches(t, rules, name)
    ensures VersionOf(t', name) != VersionOf(t, name) <==>
              t.versions[name].version + 1 < 0x1_0000_0000 * 0x1_0000_0000
  {
    InstallEffect(t, rules, t', name);
  }

  // ----- whole runs -----

  ghost predicate IsRun(run: seq<Tracker>, installs: seq<seq<RuleText>>) {
    && |run| == |installs| + 1 && run[0] == Tracker(0, map[])
    && (forall i :: 0 <= i < |installs| ==> UniqueNames(installs[i]) && Installs(run[i], installs[i], run[i + 1]))
    && (forall i :: 0 <= i < |run| ==> run[i].epoch < U64_MAX)
  }

  /** Throughout a run no version exceeds the epoch. */
  lemma RunWithinEpoch(run: seq<Tracker>, installs: seq<seq<RuleText>>, i: nat)
    requires IsRun(run, installs) && i < |run|
    ensures VersionsWithinEpoch(run[i])
    decreases i
  {
    if i > 0 {
      RunWithinEpoch(run, installs, i - 1);
      assert Installs(run[i - 1], installs[i - 1], run[i - 1 + 1]);
      InstallKeepsWithinEpoch(run[i - 1], installs[i - 1], run[i]);
    }
  }

  /** No install from `i` to `j` touched the rule. */
  ghost predicate Untouched(run: seq<Tracker>, installs: seq<seq<RuleText>>, i: nat, j: nat, name: string)
    requires |run| == |installs| + 1 && i <= j < |run|
  {
    forall k :: i <= k < j ==> !Touches(run[k], installs[k], name)
  }

  /** From a touch on, the rule is absent or has a version above the one it had. */
  lemma TouchedMovesOn(
    run: seq<Tracker>, installs: seq<seq<RuleText>>, i: nat, j: nat, name: string)
    requires IsRun(run, installs) && i <= j < |run| && name in run[i].versions
    ensures run[i].versions[name].version <= run[j].epoch
    ensures if Untouched(run, installs, i, j, name) then VersionOf(run[j], name) == VersionOf(run[i], name)
            else name !in run[j].versions || run[i].versions[name].version < run[j].versions[name].version
    decreases j - i
  {
    if i == j {
      RunWithinEpoch(run, installs, i);
    } else {
      TouchedMovesOn(run, installs, i, j - 1, name);
      RunWithinEpoch(run, installs, j - 1);
      var before, after, rules := run[j - 1], run[j], installs[j - 1];
      assert Installs(run[j - 1], installs[j - 1], run[j - 1 + 1]);
      InstallEffect(before, rules, after, name);
      InstallKeepsWithinEpoch(before, rules, after);
      assert Untouched(run, installs, i, j, name) <==>
               Untouched(run, installs, i, j - 1, name) && !Touches(before, rules, name);
      assert name in after.versions ==> VersionOf(after, name) == Some(after.versions[name].version);
      assert name in before.versions ==> VersionOf(before, name) == Some(before.versions[name].version);
    }
  }

  /** A rule's version is the same at two points of a run exactly when no install in between touched it. */
  lemma SameVersionIffUntouched(run: seq<Tracker>, installs: seq<seq<RuleText>>, i: nat, j: nat, name: string)
    requires IsRun(run, installs) && i <= j < |run| && name in run[i].versions
    ensures VersionOf(run[i], name) == VersionOf(run[j], name) <==> Untouched(run, installs, i, j, name)
  {
    TouchedMovesOn(run, installs, i, j, name);
  }
}
