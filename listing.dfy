/** What the two listing routes return, and where the full listing departs
    from filtering out every orphan. */
module Listing {
  import opened Parts
  import opened Backend

  /** A file part whose project exists but whose file cannot be read. */
  predicate Unreadable(p: Part, projects: map<int, string>, files: map<Path, string>)
  {
    p.partType == File && p.projectId in projects && FileContents(p, projects, files).None?
  }

  /** A part as the corrected listing shows it: a file part with its file's
      contents, when it can be read; any other part as stored. */
  function Shown(p: Part, projects: map<int, string>, files: map<Path, string>): Part
  {
    var c := FileContents(p, projects, files);
    if p.partType == File && c.Some? then p.(content := c.value) else p
  }

  /** The listing that filters every orphan fails exactly when some
      non-orphan file cannot be read; otherwise it holds no orphan, every file
      part in it carries its file's contents, and it is the non-orphans, in
      order, each shown as stored except that a file part shows its file. */
  lemma ListIntendedMeaning(s: seq<Part>, projects: map<int, string>, files: map<Path, string>)
    ensures ListIntended(s, projects, files).Err? <==> exists p :: p in s && Unreadable(p, projects, files)
    ensures ListIntended(s, projects, files).Ok? ==>
      var out := ListIntended(s, projects, files).value;
      var kept := Kept(s, projects);
      && (forall q :: q in out ==> !Orphan(q, projects))
      && (forall q :: q in out && q.partType == File ==> FileContents(q, projects, files) == Some(q.content))
      && |out| == |kept|
      && (forall i :: 0 <= i < |out| ==> out[i] == Shown(kept[i], projects, files))
  {
    ListIntendedFails(s, projects, files);
    ListIntendedShown(s, projects, files);
    if ListIntended(s, projects, files).Ok? {
      var out := ListIntended(s, projects, files).value;
      var kept := Kept(s, projects);
      forall q | q in out
        ensures !Orphan(q, projects)
        ensures q.partType == File ==> FileContents(q, projects, files) == Some(q.content)
      {
        var i :| 0 <= i < |out| && out[i] == q;
        assert kept[i] in kept;
        assert !Unreadable(kept[i], projects, files);
      }
    }
  }

  /** The orphan-filtering listing fails exactly when a non-orphan file
      cannot be read. */
  lemma {:induction false} ListIntendedFails(s: seq<Part>, projects: map<int, string>, files: map<Path, string>)
    ensures ListIntended(s, projects, files).Err? <==> exists p :: p in s && Unreadable(p, projects, files)
    decreases |s|
  {
    if s != [] {
      assert forall p :: p in s <==> p == s[0] || p in s[1..];
      ListIntendedFails(s[1..], projects, files);
      if Unreadable(s[0], projects, files) {
        assert s[0] in s;
      } else if ListIntended(s[1..], projects, files).Err? {
        var p :| p in s[1..] && Unreadable(p, projects, files);
        assert p in s;
      }
    }
  }

  /** A successful orphan-filtering listing is the non-orphans, in order,
      each shown. */
  lemma {:induction false} ListIntendedShown(s: seq<Part>, projects: map<int, string>, files: map<Path, string>)
    ensures ListIntended(s, projects, files).Ok? ==>
      var out := ListIntended(s, projects, files).value;
      var kept := Kept(s, projects);
      |out| == |kept| && forall i :: 0 <= i < |out| ==> out[i] == Shown(kept[i], projects, files)
    decreases |s|
  {
    if s != [] {
      ListIntendedShown(s[1..], projects, files);
      var rest := ListIntended(s[1..], projects, files);
      assert s == [s[0]] + s[1..];
      KeptCons(s[0], s[1..], projects);
      if rest.Ok? && !Orphan(s[0], projects) && ListIntended(s, projects, files).Ok? {
        var out := ListIntended(s, projects, files).value;
        var kept := Kept(s, projects);
        assert out == [Shown(s[0], projects, files)] + rest.value;
        assert kept == [s[0]] + Kept(s[1..], projects);
        forall i | 1 <= i < |out|
          ensures out[i] == Shown(kept[i], projects, files)
        {
          assert out[i] == rest.value[i - 1] && kept[i] == Kept(s[1..], projects)[i - 1];
        }
      }
    }
  }

  /** The non-orphans of `s`, in order. */
  function Kept(s: seq<Part>, projects: map<int, string>): (r: seq<Part>)
    ensures forall p :: p in r <==> p in s && !Orphan(p, projects)
  {
    if s == [] then []
    else (if Orphan(s[0], projects) then [] else [s[0]]) + Kept(s[1..], projects)
  }

  lemma KeptCons(p: Part, s: seq<Part>, projects: map<int, string>)
    ensures Kept([p] + s, projects) == (if Orphan(p, projects) then [] else [p]) + Kept(s, projects)
  {
    assert ([p] + s)[0] == p && ([p] + s)[1..] == s;
  }

  /** No orphan is followed by a file part, so the splice never steps over a
      part that needed checking. */
  predicate NoFileAfterOrphan(s: seq<Part>, projects: map<int, string>)
  {
    forall i :: 0 <= i < |s| - 1 && Orphan(s[i], projects) ==> s[i + 1].partType == Snippet
  }

  /** When no orphan is followed by a file part, the listing as written is
      the listing that filters every orphan. */
  lemma {:induction false} ListFromAgrees(s: seq<Part>, projects: map<int, string>, files: map<Path, string>)
    requires NoFileAfterOrphan(s, projects)
    ensures ListFrom(s, projects, files) == ListIntended(s, projects, files)
    decreases |s|
  {
    if s != [] {
      assert forall i :: 0 <= i < |s| - 1 ==> s[1..][i] == s[i + 1];
      assert NoFileAfterOrphan(s[1..], projects);
      if Orphan(s[0], projects) && |s| > 1 {
        assert forall i :: 0 <= i < |s| - 2 ==> s[2..][i] == s[i + 2];
        assert NoFileAfterOrphan(s[2..], projects);
        ListFromAgrees(s[2..], projects, files);
        assert s[1..][0] == s[1] && s[1..][1..] == s[2..];
      } else {
        ListFromAgrees(s[1..], projects, files);
      }
    }
  }

  /** Two orphans in a row: the splice keeps the second one in the listing. */
  lemma SpliceKeepsNextOrphan(a: Part, b: Part, projects: map<int, string>, files: map<Path, string>)
    requires Orphan(a, projects) && Orphan(b, projects)
    ensures ListFrom([a, b], projects, files) == Ok([b])
    ensures ListIntended([a, b], projects, files) == Ok([])
  {
    assert [a, b][1..] == [b] && [a, b][2..] == [] && [b][1..] == [];
    assert ListFrom([], projects, files) == Ok([]) && [b] + [] == [b];
    assert ListIntended([b], projects, files) == ListIntended([], projects, files);
  }

  /** An orphan followed by a readable file part: the splice lists that part
      with the row's stored content instead of its file's contents. */
  lemma SpliceSkipsNextFile(a: Part, b: Part, projects: map<int, string>, files: map<Path, string>)
    requires Orphan(a, projects) && b.partType == File && FileContents(b, projects, files).Some?
    ensures ListFrom([a, b], projects, files) == Ok([b])
    ensures ListIntended([a, b], projects, files) == Ok([b.(content := FileContents(b, projects, files).value)])
  {
    assert [a, b][1..] == [b] && [a, b][2..] == [] && [b][1..] == [];
    var c := b.(content := FileContents(b, projects, files).value);
    assert ListFrom([], projects, files) == Ok([]) && [b] + [] == [b] && [c] + [] == [c];
    assert ListIntended([b], projects, files) == Cons(c, ListIntended([], projects, files));
  }

  /** The listing of one project fails exactly when it holds a file part and
      the project is gone, or one of its files cannot be read; otherwise it is
      the same parts in the same order, each file part carrying its file's
      contents. */
  lemma {:induction false} ResolveAllMeaning(s: seq<Part>, pid: int, projects: map<int, string>, files: map<Path, string>)
    ensures ResolveAll(s, pid, projects, files).Ok? <==>
      forall p :: p in s && p.partType == File ==> pid in projects && Path(projects[pid], p.name) in files
    ensures ResolveAll(s, pid, projects, files).Ok? ==>
      var out := ResolveAll(s, pid, projects, files).value;
      && |out| == |s|
      && forall i :: 0 <= i < |s| ==>
           out[i] == if s[i].partType == File then s[i].(content := files[Path(projects[pid], s[i].name)]) else s[i]
    decreases |s|
  {
    if s != [] {
      assert forall p :: p in s <==> p == s[0] || p in s[1..];
      ResolveAllMeaning(s[1..], pid, projects, files);
      var rest := ResolveAll(s[1..], pid, projects, files);
      if ResolveAll(s, pid, projects, files).Ok? {
        var out := ResolveAll(s, pid, projects, files).value;
        assert out[1..] == rest.value;
        forall i | 1 <= i < |s|
          ensures out[i] == if s[i].partType == File then s[i].(content := files[Path(projects[pid], s[i].name)]) else s[i]
        {
          assert out[i] == rest.value[i - 1] && s[i] == s[1..][i - 1];
        }
      }
    }
  }
}
