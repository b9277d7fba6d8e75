/** lib/netcheck/config.py: the settings object over its tree and its file. */
module Settings {
  import opened PythonBasics
  import opened JsonValue
  import opened PythonText
  import opened SettingsTree

  class Config {
    const defaults: Tree
    var data: Tree
    var file: Option<Tree>

    /** What the file says; a missing or unreadable file says nothing. */
    function Saved(): Tree
      reads this
    {
      if file.Some? then file.value else Obj(map[])
    }

    constructor (defaults: Tree, file: Option<Tree>)
      ensures this.defaults == defaults && this.file == file && Overlaid(defaults, Saved(), data)
    {
      this.defaults, this.file := defaults, file;
      data := Merge(defaults, if file.Some? then file.value else Obj(map[]));
      new;
      MergeOverlays(defaults, Saved());
    }

    /** The file laid over the defaults; saving that and loading again would change nothing. */
    method Load()
      modifies this`data
      ensures Overlaid(defaults, Saved(), data)
      ensures Covers(data, defaults) && Merge(defaults, data) == data
    {
      var loaded: Tree := Obj(map[]);
      if file.Some? {
        loaded := file.value;
      }
      data := Merge(defaults, loaded);
      MergeOverlays(defaults, loaded);
      MergeCovers(defaults, loaded);
      MergeIdempotent(defaults, loaded);
    }

    method Get(key: string, default: Json) returns (r: Json)
      ensures r == if key == "" then data
                   else if GetPath(data, Split(key, '.')).Some? then GetPath(data, Split(key, '.')).value else default
    {
      if key == "" {
        return data;
      }
      var node: Json := data;
      var parts := Split(key, '.');
      for i := 0 to |parts|
        invariant GetPath(data, parts) == GetPath(node, parts[i..])
      {
        if !node.Obj? || parts[i] !in node.members {
          return default;
        }
        assert parts[i..][1..] == parts[i + 1..];
        node := node.members[parts[i]];
      }
      return node;
    }

    /** False stands for the exception, raised exactly when the path runs through something that is not an object;
        nothing has changed then. Otherwise the value stands at the path, all else reads as before, and it is saved. */
    method Set(key: string, value: Json) returns (ok: bool)
      modifies this`data, this`file
      ensures !ok <==> Blocked(old(data), Split(key, '.'))
      ensures ok ==> PathSet(old(data), data, Split(key, '.'), value) && file == Some(data)
      ensures !ok ==> data == old(data) && file == old(file)
      ensures data == Changed(old(data), Put(Split(key, '.'), value))
    {
      var path := Split(key, '.');
      var r := SetPath(data, path, value);
      SetRaisesIff(data, path, value);
      if r.None? {
        return false;
      }
      SetSets(data, path, value);
      data := r.value;
      file := Some(data);
      return true;
    }

    /** The partial tree laid over the settings, and saved. */
    method Update(partial: Tree)
      modifies this`data, this`file
      ensures Overlaid(old(data), partial, data) && file == Some(data)
      ensures data == Changed(old(data), Change.Update(partial))
    {
      MergeOverlays(data, partial);
      data := Merge(data, partial);
      file := Some(data);
    }
  }

  /** get(key) after set(key, value) returns the value for every key but the empty one: set("") writes a member
      named "", while get("") returns the whole tree. */
  lemma {:induction false} GetAfterSetIff(t: Tree, key: string, v: Json)
    requires SetPath(t, Split(key, '.'), v).Some?
    ensures var after := SetPath(t, Split(key, '.'), v).value;
            (if key == "" then Some(after) else GetPath(after, Split(key, '.'))) == Some(v) <==> key != ""
  {
    var path := Split(key, '.');
    GetAfterSet(t, path, v, []);
    assert path + [] == path;
    if key == "" {
      SplitNothing(key, '.');
      NotItsOwnMember(SetPath(t, path, v).value, "");
    }
  }
}
