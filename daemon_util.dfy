/**
 * The helpers with which the daemon tidies the answers it sends
 * (python/revng/daemon/util.py): dictionaries of lists lose their empty
 * entries, container and step lists lose the containers without targets and
 * the steps without containers. The source changes its arguments in place;
 * here each method returns the new value of its argument.
 */
module DaemonUtil {
  import opened Wrappers
  import opened Sequences

  // ---------------------------------------------------------------------
  // Filtering a list
  // ---------------------------------------------------------------------

  /** The elements of `s` that satisfy `keep`, in their order. */
  function KeepIf<T>(s: seq<T>, keep: T -> bool): (r: seq<T>)
    ensures |r| <= |s|
  {
    if |s| == 0 then []
    else KeepIf(s[..|s| - 1], keep) + (if keep(s[|s| - 1]) then [s[|s| - 1]] else [])
  }

  /** What a filter keeps: exactly the elements that satisfy `keep`. */
  lemma {:induction false} KeepIfMembers<T>(s: seq<T>, keep: T -> bool, x: T)
    ensures x in KeepIf(s, keep) <==> x in s && keep(x)
  {
    if |s| > 0 {
      KeepIfMembers(s[..|s| - 1], keep, x);
      assert s == s[..|s| - 1] + [s[|s| - 1]];
    }
  }

  /** Filtering distributes over concatenation. */
  lemma {:induction false} KeepIfAppend<T>(s: seq<T>, t: seq<T>, keep: T -> bool)
    ensures KeepIf(s + t, keep) == KeepIf(s, keep) + KeepIf(t, keep)
  {
    if |t| > 0 {
      KeepIfAppend(s, t[..|t| - 1], keep);
      assert (s + t)[..|s + t| - 1] == s + t[..|t| - 1];
    } else {
      assert s + t == s;
    }
  }

  /** Filtering a second time changes nothing. */
  lemma {:induction false} KeepIfIdempotent<T>(s: seq<T>, keep: T -> bool)
    ensures KeepIf(KeepIf(s, keep), keep) == KeepIf(s, keep)
  {
    if |s| > 0 {
      var init := s[..|s| - 1];
      var tail := if keep(s[|s| - 1]) then [s[|s| - 1]] else [];
      KeepIfIdempotent(init, keep);
      KeepIfAppend(KeepIf(init, keep), tail, keep);
      assert KeepIf(tail, keep) == tail by {
        if keep(s[|s| - 1]) {
          assert tail[..0] == [];
        }
      }
    }
  }

  /** `list.remove(x)` is `Sequences.RemoveFirst`: when no earlier element equals `x`, it takes out the `x` that follows them. */
  lemma RemoveFirstAfter<T>(prefix: seq<T>, x: T, rest: seq<T>)
    requires x !in prefix
    ensures RemoveFirst(prefix + [x] + rest, x) == prefix + rest
  {
    var s := prefix + [x] + rest;
    var k := FindIndex(s, x);
    assert s[|prefix|] == x;
    assert k == |prefix|;
    assert s[..k] == prefix && s[k + 1..] == rest;
  }

  /**
   * The loop shared by `clean_container_list` and `clean_step_list`: over a
   * copy of the list, every element that fails `keep` is removed with
   * `list.remove`. One step of it, with the elements before `i` filtered.
   */
  lemma RemoveStep<T>(copy: seq<T>, i: nat, keep: T -> bool)
    requires i < |copy|
    ensures var list := KeepIf(copy[..i], keep) + copy[i..];
            (if keep(copy[i]) then list else RemoveFirst(list, copy[i])) == KeepIf(copy[..i + 1], keep) + copy[i + 1..]
  {
    var x := copy[i];
    var done := KeepIf(copy[..i], keep);
    var rest := copy[i + 1..];
    assert copy[..i + 1][..i] == copy[..i] && copy[..i + 1][i] == x;
    assert KeepIf(copy[..i + 1], keep) == done + (if keep(x) then [x] else []);
    assert done + copy[i..] == done + [x] + rest;
    if !keep(x) {
      KeepIfMembers(copy[..i], keep, x);
      RemoveFirstAfter(done, x, rest);
    }
  }

  /**
   * The loop `for x in list[:]: if <x fails>: list.remove(x)`: over a copy,
   * each element that fails `keep` is removed where it first occurs.
   */
  method RemoveEachFailing<T(==)>(list: seq<T>, keep: T -> bool) returns (r: seq<T>)
    ensures r == KeepIf(list, keep)
  {
    r := list;
    var copy := list;
    for i := 0 to |copy|
      invariant r == KeepIf(copy[..i], keep) + copy[i..]
    {
      var x := copy[i];
      RemoveStep(copy, i, keep);
      if !keep(x) {
        r := RemoveFirst(r, x);
      }
    }
    assert copy[..|copy|] == copy;
  }

  // ---------------------------------------------------------------------
  // clean_dict, clean_double_dict
  // ---------------------------------------------------------------------

  /** A dictionary from names to lists, as the daemon's answers hold them. */
  type Dict = map<string, seq<string>>

  /**
   * The dictionary `clean_dict` leaves: no key maps to an empty list, and
   * every key that mapped to a non-empty list still maps to it.
   */
  function Cleaned(d: Dict): (r: Dict)
    ensures forall k :: k in r ==> |r[k]| > 0
    ensures forall k :: k in d && |d[k]| > 0 ==> k in r && r[k] == d[k]
    ensures r.Keys <= d.Keys
  {
    map k | k in d && |d[k]| > 0 :: d[k]
  }

  /** Cleaning a clean dictionary changes nothing. */
  lemma CleanedIdempotent(d: Dict)
    ensures Cleaned(Cleaned(d)) == Cleaned(d)
  {
  }

  /** A dictionary is left empty exactly when all its lists were empty. */
  lemma CleanedEmpty(d: Dict)
    ensures Cleaned(d) == map[] <==> forall k :: k in d ==> |d[k]| == 0
  {
    if Cleaned(d) == map[] {
      forall k | k in d
        ensures |d[k]| == 0
      {
        assert k !in Cleaned(d);
      }
    }
  }

  /** The keys a `pop` loop over `keys` leaves in `d`, with their values. */
  function Without<V>(d: map<string, V>, keys: seq<string>): (r: map<string, V>)
    ensures r.Keys == d.Keys - set k | k in keys
    ensures forall k :: k in r ==> r[k] == d[k]
  {
    map k | k in d && k !in keys :: d[k]
  }

  /** The loop `for key in keys_to_delete: dictionary.pop(key)`. */
  method PopAll<V>(d: map<string, V>, keys: seq<string>) returns (r: map<string, V>)
    ensures r == Without(d, keys)
  {
    r := d;
    for i := 0 to |keys|
      invariant r == Without(d, keys[..i])
    {
      assert keys[..i + 1] == keys[..i] + [keys[i]];
      r := r - {keys[i]};
    }
    assert keys[..|keys|] == keys;
  }

  /**
   * `clean_dict`: the keys whose list is empty are collected while walking
   * the keys, then popped one by one.
   */
  method CleanDict(d: Dict) returns (r: Dict)
    ensures r == Cleaned(d)
  {
    var keysToDelete: seq<string> := [];
    var keys := d.Keys;
    while keys != {}
      invariant keys <= d.Keys
      invariant forall k :: k in keysToDelete <==> k in d && k !in keys && |d[k]| == 0
      decreases keys
    {
      var key :| key in keys;
      if |d[key]| == 0 {
        keysToDelete := keysToDelete + [key];
      }
      keys := keys - {key};
    }
    r := PopAll(d, keysToDelete);
  }

  /** A dictionary of dictionaries, as `clean_double_dict` receives it. */
  type DoubleDict = map<string, Dict>

  /**
   * The dictionary `clean_double_dict` leaves: every inner dictionary
   * cleaned, and the keys whose inner dictionary became empty removed.
   */
  function DoubleCleaned(d: DoubleDict): (r: DoubleDict)
    ensures forall k :: k in r ==> k in d && r[k] != map[] && r[k] == Cleaned(d[k])
    ensures forall k :: k in d && Cleaned(d[k]) != map[] ==> k in r
  {
    map k | k in d && Cleaned(d[k]) != map[] :: Cleaned(d[k])
  }

  /** Cleaning a clean dictionary of dictionaries changes nothing. */
  lemma DoubleCleanedIdempotent(d: DoubleDict)
    ensures DoubleCleaned(DoubleCleaned(d)) == DoubleCleaned(d)
  {
    forall k | k in DoubleCleaned(d)
      ensures Cleaned(DoubleCleaned(d)[k]) == DoubleCleaned(d)[k]
    {
      CleanedIdempotent(d[k]);
    }
  }

  /**
   * `clean_double_dict`: each inner dictionary is cleaned in place while the
   * keys are walked, those left empty are collected, then popped.
   */
  method CleanDoubleDict(d: DoubleDict) returns (r: DoubleDict)
    ensures r == DoubleCleaned(d)
  {
    var current := d;
    var keysToDelete: seq<string> := [];
    var keys := d.Keys;
    while keys != {}
      invariant keys <= d.Keys && current.Keys == d.Keys
      invariant forall k :: k in d && k !in keys ==> current[k] == Cleaned(d[k])
      invariant forall k :: k in keys ==> current[k] == d[k]
      invariant forall k :: k in keysToDelete <==> k in d && k !in keys && Cleaned(d[k]) == map[]
      decreases keys
    {
      var key :| key in keys;
      var inner := CleanDict(current[key]);
      current := current[key := inner];
      if inner == map[] {
        keysToDelete := keysToDelete + [key];
      }
      keys := keys - {key};
    }
    r := PopAll(current, keysToDelete);
    PoppedAreDoubleCleaned(d, current, keysToDelete);
  }

  /** Popping the keys whose cleaned inner dictionary is empty leaves the cleaned dictionary. */
  lemma PoppedAreDoubleCleaned(d: DoubleDict, current: DoubleDict, keysToDelete: seq<string>)
    requires current.Keys == d.Keys
    requires forall k :: k in d ==> current[k] == Cleaned(d[k])
    requires forall k :: k in keysToDelete <==> k in d && Cleaned(d[k]) == map[]
    ensures Without(current, keysToDelete) == DoubleCleaned(d)
  {
    var r := Without(current, keysToDelete);
    assert forall k :: k in r <==> k in DoubleCleaned(d);
  }

  // ---------------------------------------------------------------------
  // clean_container_list, clean_step_list
  // ---------------------------------------------------------------------

  /** A container of a step, as the daemon describes it: its name and its targets. */
  datatype Container = Container(name: string, targets: seq<string>)

  /** A step of the pipeline, as the daemon describes it: its name and its containers. */
  datatype Step = Step(name: string, containers: seq<Container>)

  predicate HasTargets(c: Container)
  {
    |c.targets| > 0
  }

  predicate HasContainers(s: Step)
  {
    |s.containers| > 0
  }

  /** `clean_container_list`: the containers without targets removed, the rest kept in order. */
  method CleanContainerList(list: seq<Container>) returns (r: seq<Container>)
    ensures r == KeepIf(list, HasTargets)
  {
    r := RemoveEachFailing(list, HasTargets);
  }

  /** A step whose container list has been cleaned. */
  function WithCleanContainers(s: Step): (r: Step)
    ensures r.name == s.name && r.containers == KeepIf(s.containers, HasTargets)
  {
    s.(containers := KeepIf(s.containers, HasTargets))
  }

  /** The list `clean_step_list` leaves: every step's containers cleaned, then the steps left without containers removed. */
  function CleanedSteps(steps: seq<Step>): (r: seq<Step>)
  {
    KeepIf(seq(|steps|, i requires 0 <= i < |steps| => WithCleanContainers(steps[i])), HasContainers)
  }

  /** After `clean_step_list` every step has containers, and every container has targets. */
  lemma CleanedStepsAreClean(steps: seq<Step>, s: Step, c: Container)
    requires s in CleanedSteps(steps) && c in s.containers
    ensures HasContainers(s) && HasTargets(c)
  {
    var cleaned := seq(|steps|, i requires 0 <= i < |steps| => WithCleanContainers(steps[i]));
    KeepIfMembers(cleaned, HasContainers, s);
    var i :| 0 <= i < |steps| && cleaned[i] == s;
    KeepIfMembers(steps[i].containers, HasTargets, c);
  }

  /** Cleaning a clean step list changes nothing. */
  lemma CleanedStepsIdempotent(steps: seq<Step>)
    ensures CleanedSteps(CleanedSteps(steps)) == CleanedSteps(steps)
  {
    var once := CleanedSteps(steps);
    var recleaned := seq(|once|, i requires 0 <= i < |once| => WithCleanContainers(once[i]));
    forall i | 0 <= i < |once|
      ensures recleaned[i] == once[i]
    {
      var cleaned := seq(|steps|, j requires 0 <= j < |steps| => WithCleanContainers(steps[j]));
      KeepIfMembers(cleaned, HasContainers, once[i]);
      var j :| 0 <= j < |steps| && cleaned[j] == once[i];
      KeepIfIdempotent(steps[j].containers, HasTargets);
    }
    assert recleaned == once;
    KeepIfIdempotent(once, HasContainers);
    var cleaned := seq(|steps|, j requires 0 <= j < |steps| => WithCleanContainers(steps[j]));
    KeepIfIdempotent(cleaned, HasContainers);
  }

  /**
   * `clean_step_list`: each step's containers are cleaned in place, then, over
   * a copy of the list, each step left without containers is removed.
   */
  method CleanStepList(list: seq<Step>) returns (r: seq<Step>)
    ensures r == CleanedSteps(list)
  {
    r := list;
    for i := 0 to |r|
      invariant |r| == |list|
      invariant forall j :: 0 <= j < i ==> r[j] == WithCleanContainers(list[j])
      invariant forall j :: i <= j < |r| ==> r[j] == list[j]
    {
      var containers := CleanContainerList(r[i].containers);
      r := r[i := r[i].(containers := containers)];
    }
    assert r == seq(|list|, i requires 0 <= i < |list| => WithCleanContainers(list[i]));
    r := RemoveEachFailing(r, HasContainers);
  }

  // ---------------------------------------------------------------------
  // target_dict_to_graphql
  // ---------------------------------------------------------------------

  /** A target as a dictionary of strings. */
  type TargetDict = map<string, string>

  /**
   * `target_dict_to_graphql`: the dictionary with `pathComponents` added as a
   * copy of `path_components`; the original entries are unpacked last, so a
   * `pathComponents` the dictionary already has is kept. `None`: the
   * dictionary has no `path_components` and the lookup fails.
   */
  function TargetDictToGraphql(target: TargetDict): (r: Option<TargetDict>)
    ensures r.Some? <==> "path_components" in target
    ensures r.Some? ==> r.value.Keys == target.Keys + {"pathComponents"}
    ensures r.Some? ==> forall k :: k in target ==> r.value[k] == target[k]
    ensures r.Some? && "pathComponents" !in target ==> r.value["pathComponents"] == target["path_components"]
  {
    if "path_components" !in target then None
    else Some(map["pathComponents" := target["path_components"]] + target)
  }

  // ---------------------------------------------------------------------
  // project_workdir
  // ---------------------------------------------------------------------

  /**
   * The directories `project_workdir` can choose. `encodedId` is the project
   * id after `b64e`, whose base64 encoding is not part of this model.
   */
  datatype Workdir =
    | FreshTemporary                                      // `mkdtemp()`
    | DataDir(dir: string)                                // `REVNG_DATA_DIR`
    | ProjectUnderDataDir(dir: string, encodedId: string) // `REVNG_DATA_DIR / b64e(id)`
    | ProjectUnderXdg(encodedId: string)                  // `xdg_data_home() / "revng" / b64e(id)`

  /**
   * `project_workdir`: which directory the daemon works in, given the
   * variables `REVNG_DATA_DIR` and `REVNG_PROJECT_ID` and the encoding
   * `b64e` of a project id. The chain of cases covers every combination.
   */
  function ProjectWorkdir(dataDir: Option<string>, projectId: Option<string>, b64e: string -> string): (r: Workdir)
    ensures r.FreshTemporary? <==> dataDir.None? && projectId.None?
    ensures r.DataDir? <==> dataDir.Some? && projectId.None?
    ensures r.DataDir? ==> r.dir == dataDir.value
    ensures r.ProjectUnderDataDir? <==> dataDir.Some? && projectId.Some?
    ensures r.ProjectUnderDataDir? ==> r.dir == dataDir.value
    ensures r.ProjectUnderXdg? <==> dataDir.None? && projectId.Some?
    ensures projectId.Some? ==> (r.ProjectUnderDataDir? || r.ProjectUnderXdg?) && r.encodedId == b64e(projectId.value)
  {
    if dataDir.None? && projectId.None? then FreshTemporary
    else if dataDir.Some? && projectId.None? then DataDir(dataDir.value)
    else if dataDir.Some? then ProjectUnderDataDir(dataDir.value, b64e(projectId.value))
    else ProjectUnderXdg(b64e(projectId.value))
  }
}
