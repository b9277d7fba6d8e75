/** lib/netcheck/config.py: the settings tree, merged over defaults, addressed by dotted keys and saved whole. */
module SettingsTree {
  import opened PythonBasics
  import opened JsonValue

  type Tree = t: Json | t.Obj? witness Obj(map[])

  /** _deep_merge: objects merge member by member; anything else in the override wins. */
  function Merge(base: Tree, override: Tree): (out: Tree)
    ensures out.members.Keys == base.members.Keys + override.members.Keys
    decreases override
  {
    Obj(map k | k in base.members.Keys + override.members.Keys ::
      if k !in override.members then base.members[k]
      else if override.members[k].Obj? && k in base.members && base.members[k].Obj? then
        Merge(base.members[k], override.members[k])
      else override.members[k])
  }

  /** Every default member is there, and where default and setting are both objects, so on inside. */
  ghost predicate Covers(s: Tree, d: Tree)
    decreases d
  {
    && d.members.Keys <= s.members.Keys
    && forall k :: k in d.members && d.members[k].Obj? && s.members[k].Obj? ==> Covers(s.members[k], d.members[k])
  }

  /** Loading what was saved gives the same tree back exactly when it covers the defaults. */
  lemma {:induction false} ReloadIff(s: Tree, d: Tree)
    ensures Merge(d, s) == s <==> Covers(s, d)
    decreases d
  {
    forall k | k in d.members && k in s.members && d.members[k].Obj? && s.members[k].Obj? {
      ReloadIff(s.members[k], d.members[k]);
    }
    var m := Merge(d, s);
    if Covers(s, d) {
      assert m.members == s.members;
    } else if d.members.Keys <= s.members.Keys {
      var k :| k in d.members && d.members[k].Obj? && s.members[k].Obj? && !Covers(s.members[k], d.members[k]);
      assert m.members[k] != s.members[k];
    } else {
      assert m.members.Keys != s.members.Keys;
    }
  }

  lemma {:induction false} CoversItself(s: Tree)
    ensures Covers(s, s)
    decreases s
  {
    forall k | k in s.members && s.members[k].Obj? { CoversItself(s.members[k]); }
  }

  lemma {:induction false} MergeCovers(d: Tree, x: Tree)
    ensures Covers(Merge(d, x), d)
    decreases x
  {
    var m := Merge(d, x);
    forall k | k in d.members && d.members[k].Obj? && m.members[k].Obj? ensures Covers(m.members[k], d.members[k]) {
      if k in x.members {
        MergeCovers(d.members[k], x.members[k]);
      } else {
        CoversItself(d.members[k]);
      }
    }
  }

  /** Merging over the defaults is idempotent, whatever was in the file. */
  lemma {:induction false} MergeIdempotent(d: Tree, x: Tree)
    ensures Merge(d, Merge(d, x)) == Merge(d, x)
  {
    MergeCovers(d, x);
    ReloadIff(Merge(d, x), d);
  }

  // ---------- what a merged tree reads as ----------

  type Path = seq<string>

  function GetPath(t: Json, path: Path): Option<Json>
  {
    if path == [] then Some(t)
    else if !t.Obj? || path[0] !in t.members then None
    else GetPath(t.members[path[0]], path[1..])
  }

  /** What the override sets, it sets: any value in it that is not an object is what the merged tree holds there. */
  lemma {:induction false} OverrideWins(base: Tree, override: Tree, path: Path)
    requires GetPath(override, path).Some? && !GetPath(override, path).value.Obj?
    ensures GetPath(Merge(base, override), path) == GetPath(override, path)
    decreases path
  {
    var k := path[0];
    if |path| > 1 && k in base.members && base.members[k].Obj? {
      OverrideWins(base.members[k], override.members[k], path[1..]);
    }
  }

  /** A proper prefix of the path already holds something that is not an object. */
  ghost predicate BlockedAt(t: Json, path: Path, i: int)
  {
    0 < i < |path| && GetPath(t, path[..i]).Some? && !GetPath(t, path[..i]).value.Obj?
  }

  /** What it does not mention, it leaves: a path it neither holds nor cuts off reads as in the base. */
  lemma {:induction false} UnmentionedKept(base: Tree, override: Tree, path: Path)
    requires GetPath(override, path).None? && forall i :: !BlockedAt(override, path, i)
    ensures GetPath(Merge(base, override), path) == GetPath(base, path)
    decreases path
  {
    var k, rest := path[0], path[1..];
    if k in override.members {
      var v := override.members[k];
      assert GetPath(override, path[..1]) == Some(v) by { assert path[..1][1..] == []; }
      assert !BlockedAt(override, path, 1);
      if k in base.members && base.members[k].Obj? {
        forall i ensures !BlockedAt(v, rest, i) {
          if 0 < i < |rest| {
            assert path[..i + 1][1..] == rest[..i];
            assert !BlockedAt(override, path, i + 1);
          }
        }
        UnmentionedKept(base.members[k], v, rest);
      }
    }
  }

  /** An object in the override is an object in the merged tree. */
  lemma {:induction false} ObjectsStay(base: Tree, override: Tree, path: Path)
    requires GetPath(override, path).Some? && GetPath(override, path).value.Obj?
    ensures GetPath(Merge(base, override), path).Some? && GetPath(Merge(base, override), path).value.Obj?
    decreases path
  {
    if path != [] {
      var k := path[0];
      if k in base.members && base.members[k].Obj? {
        ObjectsStay(base.members[k], override.members[k], path[1..]);
      }
    }
  }

  /** The path runs through something that is not an object. */
  ghost predicate Blocked(t: Json, path: Path) { exists i :: BlockedAt(t, path, i) }

  /** The override says nothing about the path: it neither holds it nor cuts it off. */
  ghost predicate Silent(override: Json, path: Path)
  {
    GetPath(override, path).None? && !Blocked(override, path)
  }

  ghost predicate IsObject(v: Option<Json>) { v.Some? && v.value.Obj? }

  /** The override laid over the base, path by path: what it sets wins, what it has as an object is an object, and
      what it does not mention reads as before. */
  ghost predicate Overlaid(base: Tree, override: Tree, out: Tree)
  {
    forall path: Path ::
      && (GetPath(override, path).Some? && !IsObject(GetPath(override, path)) ==>
          GetPath(out, path) == GetPath(override, path))
      && (IsObject(GetPath(override, path)) ==> IsObject(GetPath(out, path)))
      && (Silent(override, path) ==> GetPath(out, path) == GetPath(base, path))
  }

  lemma {:induction false} MergeOverlays(base: Tree, override: Tree)
    ensures Overlaid(base, override, Merge(base, override))
  {
    forall path: Path
      ensures GetPath(override, path).Some? && !IsObject(GetPath(override, path)) ==>
                GetPath(Merge(base, override), path) == GetPath(override, path)
      ensures IsObject(GetPath(override, path)) ==> IsObject(GetPath(Merge(base, override), path))
      ensures Silent(override, path) ==> GetPath(Merge(base, override), path) == GetPath(base, path)
    {
      if Silent(override, path) {
        UnmentionedKept(base, override, path);
      } else if IsObject(GetPath(override, path)) {
        ObjectsStay(base, override, path);
      } else if GetPath(override, path).Some? {
        OverrideWins(base, override, path);
      }
    }
  }

  function Below(t: Tree, k: string): Tree
  {
    if k in t.members && t.members[k].Obj? then t.members[k] else Obj(map[])
  }

  lemma {:induction false} OneStep(t: Tree, k: string)
    ensures GetPath(t, [k]) == if k in t.members then Some(t.members[k]) else None
  {
    assert [k][1..] == [];
  }

  lemma {:induction false} PathBelow(t: Tree, k: string, path: Path)
    requires path != [] || (k in t.members && t.members[k].Obj?)
    ensures GetPath(t, [k] + path) == GetPath(Below(t, k), path)
  {
    assert ([k] + path)[1..] == path;
  }

  lemma {:induction false} SilentBelow(override: Tree, k: string, path: Path)
    requires k in override.members && override.members[k].Obj? && Silent(override.members[k], path)
    ensures Silent(override, [k] + path)
  {
    PathBelow(override, k, path);
    forall i ensures !BlockedAt(override, [k] + path, i) {
      if 0 < i < |path| + 1 {
        assert ([k] + path)[..i] == [k] + path[..i - 1];
        PathBelow(override, k, path[..i - 1]);
        assert !BlockedAt(override.members[k], path, i - 1);
      }
    }
  }

  lemma {:induction false} OverlaidBelow(base: Tree, override: Tree, out: Tree, k: string)
    requires Overlaid(base, override, out) && k in override.members && override.members[k].Obj?
    ensures k in out.members && out.members[k].Obj? && Overlaid(Below(base, k), override.members[k], out.members[k])
  {
    OneStep(override, k);
    OneStep(out, k);
    assert IsObject(GetPath(override, [k])) ==> IsObject(GetPath(out, [k]));
    var o, x := override.members[k], out.members[k];
    forall path: Path
      ensures GetPath(o, path).Some? && !IsObject(GetPath(o, path)) ==> GetPath(x, path) == GetPath(o, path)
      ensures IsObject(GetPath(o, path)) ==> IsObject(GetPath(x, path))
      ensures Silent(o, path) ==> GetPath(x, path) == GetPath(Below(base, k), path)
    {
      PathBelow(override, k, path);
      PathBelow(out, k, path);
      if Silent(o, path) {
        SilentBelow(override, k, path);
        PathBelow(base, k, path);
      }
    }
  }

  lemma {:induction false} OverlaidKey(base: Tree, override: Tree, out: Tree, k: string)
    requires Overlaid(base, override, out)
    ensures k !in override.members ==>
              (k in out.members <==> k in base.members) && (k in base.members ==> out.members[k] == base.members[k])
    ensures k in override.members && !override.members[k].Obj? ==>
            k in out.members && out.members[k] == override.members[k]
    ensures k in override.members && override.members[k].Obj? ==>
              k in out.members && out.members[k].Obj? && Overlaid(Below(base, k), override.members[k], out.members[k])
  {
    OneStep(base, k);
    OneStep(override, k);
    OneStep(out, k);
    if k !in override.members {
      assert Silent(override, [k]);
    } else if override.members[k].Obj? {
      OverlaidBelow(base, override, out, k);
    } else {
      assert GetPath(override, [k]).Some? && !IsObject(GetPath(override, [k]));
    }
  }

  /** Laying the override over the base can be done in one way only: what the merge computes is exactly that. */
  lemma {:induction false} OverlaidIff(base: Tree, override: Tree, out: Tree)
    ensures Overlaid(base, override, out) <==> out == Merge(base, override)
    decreases override
  {
    MergeOverlays(base, override);
    if Overlaid(base, override, out) {
      var m := Merge(base, override);
      forall k ensures (k in out.members <==> k in m.members) && (k in m.members ==> out.members[k] == m.members[k]) {
        OverlaidKey(base, override, out, k);
        if k in override.members && override.members[k].Obj? {
          OverlaidIff(Below(base, k), override.members[k], out.members[k]);
          ReloadIff(override.members[k], Obj(map[]));
        }
      }
      assert out.members == m.members;
    }
  }

  // ---------- runs of changes ----------

  /** Every default object is still an object, all the way down. */
  ghost predicate Keeps(s: Tree, d: Tree)
    decreases d
  {
    && d.members.Keys <= s.members.Keys
    && forall k :: k in d.members && d.members[k].Obj? ==> s.members[k].Obj? && Keeps(s.members[k], d.members[k])
  }

  /** An update that never puts a non-object where the defaults have an object. */
  ghost predicate Conforms(p: Tree, d: Tree)
    decreases d
  {
    forall k :: k in d.members && k in p.members && d.members[k].Obj? ==>
      p.members[k].Obj? && Conforms(p.members[k], d.members[k])
  }

  lemma {:induction false} KeepsCovers(s: Tree, d: Tree)
    requires Keeps(s, d)
    ensures Covers(s, d)
    decreases d
  {
    forall k | k in d.members && d.members[k].Obj? { KeepsCovers(s.members[k], d.members[k]); }
  }

  lemma {:induction false} KeepsItself(d: Tree)
    ensures Keeps(d, d)
    decreases d
  {
    forall k | k in d.members && d.members[k].Obj? { KeepsItself(d.members[k]); }
  }

  lemma {:induction false} UpdateKeeps(s: Tree, p: Tree, d: Tree)
    requires Keeps(s, d) && Conforms(p, d)
    ensures Keeps(Merge(s, p), d)
    decreases d
  {
    forall k | k in d.members && d.members[k].Obj? && k in p.members {
      UpdateKeeps(s.members[k], p.members[k], d.members[k]);
    }
  }

  // ---------- dotted paths ----------

  /** set(): missing objects are created on the way; None when a step meets something that is not an object, which
      raises. */
  function SetPath(t: Tree, path: Path, v: Json): Option<Tree>
    requires path != []
    decreases path
  {
    if |path| == 1 then Some(Obj(t.members[path[0] := v]))
    else
      var child := Get(t.members, path[0], Obj(map[]));
      if !child.Obj? then None
      else match SetPath(child, path[1..], v)
        case None => None
        case Some(c) => Some(Obj(t.members[path[0] := c]))
  }

  /** get after set returns the value, and below it the value's own members. */
  lemma {:induction false} GetAfterSet(t: Tree, path: Path, v: Json, rest: Path)
    requires path != [] && SetPath(t, path, v).Some?
    ensures GetPath(SetPath(t, path, v).value, path + rest) == GetPath(v, rest)
    decreases path
  {
    assert (path + rest)[1..] == path[1..] + rest;
    if |path| == 1 {
      assert path[1..] + rest == rest;
    } else {
      GetAfterSet(Get(t.members, path[0], Obj(map[])), path[1..], v, rest);
    }
  }

  ghost predicate Unrelated(p: Path, q: Path) { !(p <= q) && !(q <= p) }

  /** Every path that is neither above nor below the one set reads as before. */
  lemma {:induction false} SetLeavesOthers(t: Tree, path: Path, v: Json, q: Path)
    requires path != [] && SetPath(t, path, v).Some? && Unrelated(path, q)
    ensures GetPath(SetPath(t, path, v).value, q) == GetPath(t, q)
    decreases path
  {
    if q[0] == path[0] && |path| > 1 {
      assert Unrelated(path[1..], q[1..]) by {
        assert path == [path[0]] + path[1..] && q == [q[0]] + q[1..];
      }
      var child := Get(t.members, path[0], Obj(map[]));
      SetLeavesOthers(child, path[1..], v, q[1..]);
    }
    assert |path| == 1 && q[0] == path[0] ==> path <= q;
  }

  lemma {:induction false} ShiftWitness(t: Tree, child: Tree, path: Path, rest: Path)
    requires |path| > 1 && rest == path[1..] && path[0] in t.members && child == t.members[path[0]]
    requires forall i :: 0 < i <= |rest| ==> GetPath(t, path[..i]) == GetPath(child, rest[..i - 1])
    ensures Blocked(t, path) <==> Blocked(child, rest)
  {
    assert rest[..0] == [];
    if i :| BlockedAt(t, path, i) {
      assert BlockedAt(child, rest, i - 1);
    }
    if i :| BlockedAt(child, rest, i) {
      assert GetPath(t, path[..i + 1]) == GetPath(child, rest[..i + 1 - 1]);
      assert BlockedAt(t, path, i + 1);
    }
  }

  /** set() raises exactly when some proper prefix of the path already holds something that is not an object. */
  lemma {:induction false} SetRaisesIff(t: Tree, path: Path, v: Json)
    requires path != []
    ensures SetPath(t, path, v).None? <==> Blocked(t, path)
    decreases path
  {
    if |path| > 1 {
      var child, rest := Get(t.members, path[0], Obj(map[])), path[1..];
      forall i | 0 < i <= |rest|
          ensures path[0] in t.members ==> GetPath(t, path[..i]) == GetPath(child, rest[..i - 1]) {
        assert path[..i][1..] == rest[..i - 1];
      }
      forall i | 0 < i <= |path| && path[0] !in t.members ensures GetPath(t, path[..i]).None? {
        assert path[..i][0] == path[0];
      }
      if !child.Obj? {
        assert GetPath(t, path[..1]) == Some(child) by { assert rest[..0] == []; }
        assert BlockedAt(t, path, 1);
      } else {
        SetRaisesIff(child, rest, v);
        if path[0] in t.members {
          ShiftWitness(t, child, path, rest);
        } else {
          assert forall i :: 0 < i <= |rest| ==> GetPath(Obj(map[]), rest[..i]).None?;
        }
      }
    }
  }

  /** The value stands at the path, and every path neither above nor below it reads as before. */
  ghost predicate PathSet(before: Tree, after: Tree, path: Path, v: Json)
  {
    GetPath(after, path) == Some(v) && forall q :: Unrelated(path, q) ==> GetPath(after, q) == GetPath(before, q)
  }

  lemma {:induction false} SetSets(t: Tree, path: Path, v: Json)
    requires path != [] && SetPath(t, path, v).Some?
    ensures PathSet(t, SetPath(t, path, v).value, path, v)
  {
    GetAfterSet(t, path, v, []);
    assert path + [] == path;
    forall q | Unrelated(path, q) ensures GetPath(SetPath(t, path, v).value, q) == GetPath(t, q) {
      SetLeavesOthers(t, path, v, q);
    }
  }

  lemma {:induction false} PrefixBelow(k: string, p: Path, q: Path)
    requires [k] + p <= [k] + q
    ensures p <= q
  {
    assert forall i :: 0 <= i < |p| ==> ([k] + p)[i + 1] == p[i];
    assert forall i :: 0 <= i < |q| ==> ([k] + q)[i + 1] == q[i];
  }

  lemma {:induction false} PathSetBelow(before: Tree, after: Tree, path: Path, v: Json)
    requires |path| > 1 && PathSet(before, after, path, v)
    ensures path[0] in after.members && after.members[path[0]].Obj?
    ensures PathSet(Below(before, path[0]), after.members[path[0]], path[1..], v)
  {
    var k, rest := path[0], path[1..];
    assert rest != [] && GetPath(after.members[k], rest) == Some(v);
    forall q | Unrelated(rest, q) ensures GetPath(after.members[k], q) == GetPath(Below(before, k), q) {
      assert q != [] by { assert [] <= rest; }
      assert path == [k] + rest;
      assert Unrelated([k] + rest, [k] + q) by {
        if [k] + rest <= [k] + q { PrefixBelow(k, rest, q); }
        if [k] + q <= [k] + rest { PrefixBelow(k, q, rest); }
      }
      PathBelow(before, k, q);
      PathBelow(after, k, q);
    }
  }

  /** Setting a path can be done in one way only: what set computes, where it does not raise, is exactly that. */
  lemma {:induction false} PathSetIff(before: Tree, after: Tree, path: Path, v: Json)
    requires path != [] && SetPath(before, path, v).Some?
    ensures PathSet(before, after, path, v) <==> after == SetPath(before, path, v).value
    decreases path
  {
    SetSets(before, path, v);
    if PathSet(before, after, path, v) {
      var k, result := path[0], SetPath(before, path, v).value;
      forall other | other != k
        ensures other in after.members <==> other in result.members
        ensures other in result.members ==> after.members[other] == result.members[other]
      {
        assert (other in after.members <==> other in before.members) &&
               (other in before.members ==> after.members[other] == before.members[other]) by {
          OneStep(before, other);
          OneStep(after, other);
          assert [other][0] != path[0] && Unrelated(path, [other]);
        }
      }
      if |path| == 1 {
        OneStep(after, k);
        assert path == [k];
      } else {
        PathSetBelow(before, after, path, v);
        PathSetIff(Below(before, k), after.members[k], path[1..], v);
      }
      assert after.members == result.members;
    }
  }

  /** A set keeps the settings able to survive a restart, unless it puts something less where the defaults have an
      object. */
  lemma {:induction false} SetKeeps(s: Tree, d: Tree, path: Path, v: Json)
    requires path != [] && Keeps(s, d) && SetPath(s, path, v).Some?
    requires GetPath(d, path).Some? && GetPath(d, path).value.Obj? ==> v.Obj? && Keeps(v, GetPath(d, path).value)
    ensures Keeps(SetPath(s, path, v).value, d)
    decreases path
  {
    var k := path[0];
    if |path| == 1 {
      if k in d.members {
        assert GetPath(d, path) == Some(d.members[k]) by { assert path[1..] == []; }
      }
    } else if k in d.members && d.members[k].Obj? {
      SetKeeps(s.members[k], d.members[k], path[1..], v);
    }
  }

  // ---------- save and load over runs ----------

  /** What a caller may do to the settings. */
  datatype Change = Update(partial: Tree) | Put(path: Path, v: Json)

  /** The tree after one change; a set that raises leaves it as it was. */
  function Changed(t: Tree, c: Change): Tree
  {
    match c
    case Update(p) => Merge(t, p)
    case Put(path, v) => if path != [] && SetPath(t, path, v).Some? then SetPath(t, path, v).value else t
  }

  /** The tree after loading a file and a run of changes, oldest first. */
  ghost function AfterChanges(d: Tree, loaded: Tree, changes: seq<Change>): Tree
  {
    if changes == [] then Merge(d, loaded)
    else Changed(AfterChanges(d, loaded, changes[..|changes| - 1]), changes[|changes| - 1])
  }

  /** A change that never puts something less where the defaults have an object. */
  ghost predicate Conforming(c: Change, d: Tree)
  {
    match c
    case Update(p) => Conforms(p, d)
    case Put(path, v) => path != [] && (IsObject(GetPath(d, path)) ==> v.Obj? && Keeps(v, GetPath(d, path).value))
  }

  lemma {:induction false} ChangesKeep(d: Tree, loaded: Tree, changes: seq<Change>)
    requires Conforms(loaded, d) && forall i :: 0 <= i < |changes| ==> Conforming(changes[i], d)
    ensures Keeps(AfterChanges(d, loaded, changes), d)
  {
    if changes == [] {
      KeepsItself(d);
      UpdateKeeps(d, loaded, d);
    } else {
      var n := |changes| - 1;
      var t := AfterChanges(d, loaded, changes[..n]);
      ChangesKeep(d, loaded, changes[..n]);
      assert Conforming(changes[n], d);
      match changes[n]
      case Update(p) => UpdateKeeps(t, p, d);
      case Put(path, v) => if SetPath(t, path, v).Some? { SetKeeps(t, d, path, v); }
    }
  }

  /** Settings survive a restart: from a file that keeps the defaults' objects, after any run of updates and sets that
      keep them too, saving and loading gives back the same tree. */
  lemma {:induction false} SettingsSurviveRestart(d: Tree, loaded: Tree, changes: seq<Change>)
    requires Conforms(loaded, d) && forall i :: 0 <= i < |changes| ==> Conforming(changes[i], d)
    ensures Merge(d, AfterChanges(d, loaded, changes)) == AfterChanges(d, loaded, changes)
  {
    ChangesKeep(d, loaded, changes);
    KeepsCovers(AfterChanges(d, loaded, changes), d);
    ReloadIff(AfterChanges(d, loaded, changes), d);
  }

  /** Other runs need not survive: blanking a default object and then giving a smaller one
      brings the dropped defaults back on the next load. */
  lemma {:induction false} TwoUpdatesMayNotSurvive(d: Tree, loaded: Tree, k: string)
    requires k in d.members && d.members[k].Obj? && d.members[k].members != map[]
    ensures var changes := [Update(Obj(map[k := Null])), Update(Obj(map[k := Obj(map[])]))];
            Merge(d, AfterChanges(d, loaded, changes)) != AfterChanges(d, loaded, changes)
  {
    var u0, u1: Tree := Obj(map[k := Null]), Obj(map[k := Obj(map[])]);
    var changes := [Update(u0), Update(u1)];
    assert changes[..1] == [Update(u0)] && [Update(u0)][..0] == [];
    var t0 := AfterChanges(d, loaded, [Update(u0)]);
    assert t0.members[k] == Null;
    var t1 := AfterChanges(d, loaded, changes);
    assert t1 == Merge(t0, u1) && t1.members[k] == Obj(map[]);
    assert !Covers(t1.members[k], d.members[k]) by {
      assert d.members[k].members.Keys != {};
    }
    ReloadIff(t1, d);
  }

  /** An object is never one of its own members. */
  lemma {:induction false} NotItsOwnMember(t: Tree, k: string)
    requires k in t.members
    ensures t.members[k] != t
  {
    assert t.members[k] < t;
  }
}
