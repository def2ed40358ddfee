/** The prompt-part routes of the server: a store holding the `prompt_parts`
    table, the `projects` table (id to name) and the project directories on
    disk, with one method per route. */
module Backend {
  import opened Parts

  /** What delete returns: the row as it was read before the delete. */
  datatype Snapshot = Snapshot(partType: PartType, projectId: int, name: string)

  /** What update returns: the re-read row, and the `content` the response
      carries (`None` stands for `undefined`). */
  datatype Reply = Reply(row: Part, content: Option<string>)

  /** A file part whose project no longer exists. */
  predicate Orphan(p: Part, projects: map<int, string>)
  {
    p.partType == File && p.projectId !in projects
  }

  /** The contents of a file part's backing file, if its project exists and
      the file is there to read. */
  function FileContents(p: Part, projects: map<int, string>, files: map<Path, string>): Option<string>
  {
    if p.projectId in projects && Path(projects[p.projectId], p.name) in files
    then Some(files[Path(projects[p.projectId], p.name)])
    else None
  }

  /** The ids of the rows of project `pid`. */
  function ProjectIds(rows: map<int, Part>, pid: int): set<int>
  {
    set id | id in rows && rows[id].projectId == pid
  }

  /** The rows with ids in [1, n), in ascending id order: the order in which
      the rows come back from `SELECT *`. */
  function IdOrder(rows: map<int, Part>, n: int): (s: seq<Part>)
    ensures forall p :: p in s ==> p in rows.Values
    ensures forall id :: id in rows && 1 <= id < n ==> rows[id] in s
    decreases n
  {
    if n <= 1 then [] else IdOrder(rows, n - 1) + (if n - 1 in rows then [rows[n - 1]] else [])
  }

  /** `SELECT *` lists each row once: the ids come out strictly ascending,
      all of them in [1, n). */
  lemma {:induction false} IdOrderSorted(rows: map<int, Part>, n: int)
    requires forall id :: id in rows ==> rows[id].id == id
    ensures forall p :: p in IdOrder(rows, n) ==> 1 <= p.id < n
    ensures forall i, j :: 0 <= i < j < |IdOrder(rows, n)| ==> IdOrder(rows, n)[i].id < IdOrder(rows, n)[j].id
    decreases n
  {
    if n > 1 {
      IdOrderSorted(rows, n - 1);
    }
  }

  /** The project filter keeps the ascending id order, so it too lists each
      row once. */
  lemma {:induction false} InProjectSorted(s: seq<Part>, pid: int)
    requires forall i, j :: 0 <= i < j < |s| ==> s[i].id < s[j].id
    ensures forall i, j :: 0 <= i < j < |InProject(s, pid)| ==> InProject(s, pid)[i].id < InProject(s, pid)[j].id
    decreases |s|
  {
    if s != [] {
      InProjectSorted(s[1..], pid);
      forall q | q in InProject(s[1..], pid)
        ensures s[0].id < q.id
      {
        var k :| 0 <= k < |s[1..]| && s[1..][k] == q;
        assert s[k + 1] == q;
      }
    }
  }

  /** The parts of `s` that belong to project `pid`, in order. */
  function InProject(s: seq<Part>, pid: int): (r: seq<Part>)
    ensures forall p :: p in r <==> p in s && p.projectId == pid
    ensures |r| <= |s|
  {
    if s == [] then []
    else (if s[0].projectId == pid then [s[0]] else []) + InProject(s[1..], pid)
  }

  /** Prepends `p` to a successful listing; an error stays an error. */
  function Cons(p: Part, r: Result<seq<Part>>): Result<seq<Part>>
  {
    if r.Ok? then Ok([p] + r.value) else r
  }

  /** Prepends `pre` to a successful listing; an error stays an error. */
  function Prepend(pre: seq<Part>, r: Result<seq<Part>>): Result<seq<Part>>
  {
    if r.Ok? then Ok(pre + r.value) else r
  }

  lemma PrependNothing(r: Result<seq<Part>>)
    ensures Prepend([], r) == r
  {
    if r.Ok? {
      assert [] + r.value == r.value;
    }
  }

  lemma PrependCons(pre: seq<Part>, p: Part, r: Result<seq<Part>>)
    ensures Prepend(pre, Cons(p, r)) == Prepend(pre + [p], r)
  {
    if r.Ok? {
      assert pre + ([p] + r.value) == (pre + [p]) + r.value;
    }
  }

  /** One orphan spliced out of the listing being built: the invariant of
      the listing loop holds again one or two source parts later. */
  lemma SpliceStep(src: seq<Part>, out: seq<Part>, i: nat, k: nat, projects: map<int, string>, files: map<Path, string>)
    requires i < |out| && k <= |src| && out[i..] == src[k..]
    requires out[i].partType == File && out[i].projectId !in projects
    requires ListFrom(src, projects, files) == Prepend(out[..i], ListFrom(src[k..], projects, files))
    ensures var o := out[..i] + out[i + 1..];
      if i < |o| then
        k + 2 <= |src| && o[i + 1..] == src[k + 2..] &&
        ListFrom(src, projects, files) == Prepend(o[..i + 1], ListFrom(src[k + 2..], projects, files))
      else
        k + 1 <= |src| && o[i..] == src[k + 1..] &&
        ListFrom(src, projects, files) == Prepend(o[..i], ListFrom(src[k + 1..], projects, files))
  {
    var o := out[..i] + out[i + 1..];
    assert src[k..][0] == out[i];
    if i < |o| {
      assert src[k..][1] == src[k + 1] && src[k..][2..] == src[k + 2..];
      PrependCons(out[..i], src[k + 1], ListFrom(src[k + 2..], projects, files));
      assert o[..i + 1] == out[..i] + [src[k + 1]];
      assert o[i + 1..] == out[i + 2..];
    } else {
      assert o[..i] == out[..i];
      assert src[k + 1..] == [];
    }
  }

  /** One part kept, with `p` its listed form: the invariant of the listing
      loop holds again one source part later. */
  lemma KeepStep(src: seq<Part>, out: seq<Part>, i: nat, k: nat, p: Part, projects: map<int, string>, files: map<Path, string>)
    requires i < |out| && k <= |src| && out[i..] == src[k..]
    requires ListFrom(src, projects, files) == Prepend(out[..i], ListFrom(src[k..], projects, files))
    requires ListFrom(src[k..], projects, files) == Cons(p, ListFrom(src[k + 1..], projects, files))
    ensures k + 1 <= |src|
    ensures var o := out[i := p];
      o[i + 1..] == src[k + 1..] &&
      ListFrom(src, projects, files) == Prepend(o[..i + 1], ListFrom(src[k + 1..], projects, files))
  {
    var o := out[i := p];
    assert src[k..][1..] == src[k + 1..];
    assert o[i + 1..] == out[i + 1..];
    assert o[..i + 1] == out[..i] + [p];
    PrependCons(out[..i], p, ListFrom(src[k + 1..], projects, files));
  }

  /** The full listing as the route computes it. A file part's content is
      replaced by its file's contents and any failed read fails the whole
      listing. An orphan is spliced out of the array being iterated, so the
      part right after it is neither checked nor resolved. */
  function ListFrom(s: seq<Part>, projects: map<int, string>, files: map<Path, string>): Result<seq<Part>>
    decreases |s|
  {
    if s == [] then Ok([])
    else if s[0].partType == Snippet then Cons(s[0], ListFrom(s[1..], projects, files))
    else if s[0].projectId !in projects then
      (if |s| == 1 then Ok([]) else Cons(s[1], ListFrom(s[2..], projects, files)))
    else
      var c := FileContents(s[0], projects, files);
      if c.None? then Err(Failure)
      else Cons(s[0].(content := c.value), ListFrom(s[1..], projects, files))
  }

  /** The full listing with every orphan filtered out and every other file
      part resolved. */
  function ListIntended(s: seq<Part>, projects: map<int, string>, files: map<Path, string>): Result<seq<Part>>
    decreases |s|
  {
    if s == [] then Ok([])
    else if s[0].partType == Snippet then Cons(s[0], ListIntended(s[1..], projects, files))
    else if s[0].projectId !in projects then ListIntended(s[1..], projects, files)
    else
      var c := FileContents(s[0], projects, files);
      if c.None? then Err(Failure)
      else Cons(s[0].(content := c.value), ListIntended(s[1..], projects, files))
  }

  /** The listing of one project: every file part of it is resolved against
      that project's directory; a missing project or file fails the listing. */
  function ResolveAll(s: seq<Part>, pid: int, projects: map<int, string>, files: map<Path, string>): Result<seq<Part>>
    decreases |s|
  {
    if s == [] then Ok([])
    else if s[0].partType == Snippet then Cons(s[0], ResolveAll(s[1..], pid, projects, files))
    else if pid !in projects || Path(projects[pid], s[0].name) !in files then Err(Failure)
    else Cons(s[0].(content := files[Path(projects[pid], s[0].name)]), ResolveAll(s[1..], pid, projects, files))
  }

  /** One part of a project listing resolved, with `p` its listed form: the
      invariant of that listing loop holds again one part later. */
  lemma ResolveStep(src: seq<Part>, out: seq<Part>, i: nat, p: Part, pid: int,
                    projects: map<int, string>, files: map<Path, string>)
    requires i < |out| == |src| && out[i..] == src[i..]
    requires ResolveAll(src, pid, projects, files) == Prepend(out[..i], ResolveAll(src[i..], pid, projects, files))
    requires ResolveAll(src[i..], pid, projects, files) == Cons(p, ResolveAll(src[i + 1..], pid, projects, files))
    ensures var o := out[i := p];
      o[i + 1..] == src[i + 1..] &&
      ResolveAll(src, pid, projects, files) == Prepend(o[..i + 1], ResolveAll(src[i + 1..], pid, projects, files))
  {
    var o := out[i := p];
    assert o[i + 1..] == out[i + 1..];
    assert out[i..][1..] == out[i + 1..];
    assert o[..i + 1] == out[..i] + [p];
    PrependCons(out[..i], p, ResolveAll(src[i + 1..], pid, projects, files));
  }

  /** A create request passes the falsy-field check. */
  predicate CreateRequestOk(name: Option<string>, projectId: Option<int>, partType: Option<PartType>)
  {
    Truthy(name) && projectId.Some? && projectId.value != 0 && partType.Some?
  }

  /** An update request supplies none of the four fields: `name` and `content`
      count only when truthy, `position` only when it is an integer,
      `included` whenever it is present. */
  predicate NothingSupplied(name: Option<string>, content: Option<string>, position: Option<int>, included: Option<bool>)
  {
    !Truthy(name) && !Truthy(content) && position.None? && included.None?
  }

  /** The update renames the backing file of `p`. */
  predicate Renames(p: Part, name: Option<string>)
  {
    p.partType == File && Truthy(name) && name.value != p.name
  }

  /** The file steps of an update of `p` throw: the project is gone, or the
      old file is missing and is either renamed or re-read. */
  predicate FileStepFails(p: Part, name: Option<string>, content: Option<string>,
                          projects: map<int, string>, files: map<Path, string>)
  {
    p.partType == File &&
    (p.projectId !in projects ||
     (Path(projects[p.projectId], p.name) !in files && (Renames(p, name) || !Truthy(content))))
  }

  class Store {
    /** The `prompt_parts` table, keyed by id. */
    var rows: map<int, Part>
    /** The `projects` table: id to project name (the directory name). */
    var projects: map<int, string>
    /** The project directories: path to file contents. */
    var files: map<Path, string>
    /** The id the next insert receives. */
    var nextId: int
    /** The logical clock that stamps `created_at` and `updated_at`. */
    var clock: nat
    /** The table's default for `included`, which create does not set. */
    const includedDefault: bool

    ghost predicate Valid()
      reads this
    {
      nextId >= 1 &&
      forall id :: id in rows ==> rows[id].id == id && 1 <= id < nextId
    }

    constructor (projects: map<int, string>, files: map<Path, string>, includedDefault: bool)
      ensures Valid()
      ensures rows == map[] && this.projects == projects && this.files == files
      ensures nextId == 1 && clock == 0 && this.includedDefault == includedDefault
    {
      this.rows := map[];
      this.projects := projects;
      this.files := files;
      this.nextId := 1;
      this.clock := 0;
      this.includedDefault := includedDefault;
    }

    /** GET /api/prompt_parts: every row, in id order, with file parts
        resolved; orphans are dropped from the result (not from the table). */
    method ListAll() returns (r: Result<seq<Part>>)
      ensures r == ListFrom(IdOrder(rows, nextId), projects, files)
    {
      var out := IdOrder(rows, nextId);
      ghost var src := out;
      var i := 0;
      ghost var k := 0;
      assert src[k..] == src;
      PrependNothing(ListFrom(src, projects, files));
      while i < |out|
        invariant 0 <= i <= |out| && 0 <= k <= |src|
        invariant out[i..] == src[k..]
        invariant ListFrom(src, projects, files) == Prepend(out[..i], ListFrom(src[k..], projects, files))
        decreases |out| - i
      {
        var part := out[i];
        assert src[k..][0] == part;
        if part.partType == File && part.projectId !in projects {
          // the splice shifts the next part into slot i, which the iterator
          // then steps over
          SpliceStep(src, out, i, k, projects, files);
          out := out[..i] + out[i + 1..];
          if i < |out| {
            i, k := i + 1, k + 2;
          } else {
            k := k + 1;
          }
          continue;
        }
        if part.partType == File {
          var path := Path(projects[part.projectId], part.name);
          if path !in files {
            return Err(Failure);
          }
          part := part.(content := files[path]);
        }
        KeepStep(src, out, i, k, part, projects, files);
        out := out[i := part];
        i, k := i + 1, k + 1;
      }
      assert src[k..] == [];
      assert out[..i] == out && out + [] == out;
      r := Ok(out);
    }

    /** GET /api/prompt_parts/:project_id: the project's rows in id order,
        each file part resolved against the project's directory. */
    method ListByProject(pid: int) returns (r: Result<seq<Part>>)
      ensures r == ResolveAll(InProject(IdOrder(rows, nextId), pid), pid, projects, files)
    {
      var out := InProject(IdOrder(rows, nextId), pid);
      ghost var src := out;
      var i := 0;
      assert src[i..] == src;
      PrependNothing(ResolveAll(src, pid, projects, files));
      while i < |out|
        invariant 0 <= i <= |out| == |src|
        invariant out[i..] == src[i..]
        invariant ResolveAll(src, pid, projects, files) == Prepend(out[..i], ResolveAll(src[i..], pid, projects, files))
      {
        var part := out[i];
        assert src[i..][0] == part;
        if part.partType == File {
          if pid !in projects {
            return Err(Failure);
          }
          var path := Path(projects[pid], part.name);
          if path !in files {
            return Err(Failure);
          }
          part := part.(content := files[path]);
        }
        ResolveStep(src, out, i, part, pid, projects, files);
        out := out[i := part];
        i := i + 1;
      }
      assert src[i..] == [];
      assert out[..i] == out && out + [] == out;
      r := Ok(out);
    }

    /** GET /api/prompt_parts/:id/token_count: the oracle applied to the
        part's authoritative content. */
    method TokenCount(id: int, tokens: string -> nat) returns (r: Result<nat>)
      ensures id !in rows ==> r == Err(NotFound)
      ensures id in rows && rows[id].partType == Snippet ==> r == Ok(tokens(rows[id].content))
      ensures id in rows && rows[id].partType == File ==>
        var c := FileContents(rows[id], projects, files);
        r == if c.Some? then Ok(tokens(c.value)) else Err(Failure)
    {
      if id !in rows {
        return Err(NotFound);
      }
      var part := rows[id];
      if part.partType == File {
        if part.projectId !in projects {
          return Err(Failure);
        }
        var path := Path(projects[part.projectId], part.name);
        if path !in files {
          return Err(Failure);
        }
        part := part.(content := files[path]);
      }
      r := Ok(tokens(part.content));
    }

    /** POST /api/prompt_parts. */
    method Create(name: Option<string>, projectId: Option<int>, partType: Option<PartType>) returns (r: Result<Part>)
      requires Valid()
      modifies this
      ensures Valid()
      ensures projects == old(projects) && files == old(files)
      ensures r == Err(BadRequest) <==> !CreateRequestOk(name, projectId, partType)
      ensures r.Err? ==> r.error == BadRequest || r.error == Failure || r.error == FileNotFound
      ensures r == Err(Failure) <==>
        CreateRequestOk(name, projectId, partType) && partType.value == File && projectId.value !in projects
      ensures r == Err(FileNotFound) <==>
        CreateRequestOk(name, projectId, partType) && partType.value == File && projectId.value in projects &&
        Path(projects[projectId.value], name.value) !in files
      ensures r.Err? ==> rows == old(rows) && nextId == old(nextId) && clock == old(clock)
      ensures r.Ok? ==>
        CreateRequestOk(name, projectId, partType) &&
        (partType.value == File ==> FileContents(r.value, projects, files).Some?)
      ensures r.Ok? ==>
        var id := old(nextId);
        var pid := projectId.value;
        && nextId == id + 1 && clock == old(clock) + 1
        && rows == old(rows)[id := Part(id, pid, name.value, partType.value, "",
                                        |ProjectIds(old(rows), pid)| + 1, includedDefault, old(clock), old(clock))]
        && r.value == if partType.value == File
                      then rows[id].(content := files[Path(projects[pid], name.value)])
                      else rows[id]
    {
      if !Truthy(name) || projectId.None? || projectId.value == 0 || partType.None? {
        return Err(BadRequest);
      }
      var pid := projectId.value;
      var position := |ProjectIds(rows, pid)| + 1;
      var fileContents: Option<string> := None;
      if partType.value == File {
        if pid !in projects {
          return Err(Failure);
        }
        var path := Path(projects[pid], name.value);
        if path !in files {
          return Err(FileNotFound);
        }
        fileContents := Some(files[path]);
      }
      var id := nextId;
      var row := Part(id, pid, name.value, partType.value, "", position, includedDefault, clock, clock);
      rows := rows[id := row];
      nextId := nextId + 1;
      clock := clock + 1;
      r := Ok(if partType.value == File then row.(content := fileContents.value) else row);
    }

    /** PUT /api/prompt_parts/:id. `idArg` is `None` when the id does not
        parse as an integer. */
    method Update(idArg: Option<int>, name: Option<string>, content: Option<string>,
                  position: Option<int>, included: Option<bool>) returns (r: Result<Reply>)
      requires Valid()
      modifies this
      ensures Valid()
      ensures projects == old(projects) && nextId == old(nextId)
      ensures r.Err? ==> rows == old(rows) && files == old(files) && clock == old(clock)
      ensures r == Err(BadRequest) <==> idArg.None? || NothingSupplied(name, content, position, included)
      ensures r == Err(Failure) <==>
        idArg.Some? && !NothingSupplied(name, content, position, included) &&
        (idArg.value !in old(rows) || FileStepFails(old(rows[idArg.value]), name, content, projects, old(files)))
      ensures r.Err? ==> r.error == BadRequest || r.error == Failure
      ensures r.Ok? ==> idArg.Some? && idArg.value in old(rows) && clock == old(clock) + 1
      // only the supplied fields are written; updated_at always is
      ensures r.Ok? ==>
        var p := old(rows[idArg.value]);
        var q := r.value.row;
        && rows == old(rows)[idArg.value := q]
        && q.id == p.id && q.projectId == p.projectId && q.partType == p.partType && q.createdAt == p.createdAt
        && q.updatedAt == old(clock)
        && q.name == (if Truthy(name) then name.value else p.name)
        && q.content == (if Truthy(content) && p.partType == Snippet then content.value else p.content)
        && q.position == (if position.Some? then position.value else p.position)
        && q.included == (if included.Some? then included.value else p.included)
      ensures r.Ok? && old(rows[idArg.value]).partType == Snippet ==>
        files == old(files) && r.value.content == Some(r.value.row.content)
      // a file part is renamed first; the content then goes to the new path
      ensures r.Ok? && old(rows[idArg.value]).partType == File ==>
        var p := old(rows[idArg.value]);
        var dir := projects[p.projectId];
        var from := Path(dir, p.name);
        var to := Path(dir, r.value.row.name);
        && (Renames(p, name) ==> from in old(files) && to != from)
        && (!Renames(p, name) ==> to == from && (Truthy(content) || from in old(files)))
        && var moved := if Renames(p, name) then (old(files) - {from})[to := old(files)[from]] else old(files);
           && files == (if Truthy(content) then moved[to := content.value] else moved)
           && r.value.content == (if Truthy(content) then None else Some(moved[to]))
    {
      if idArg.None? || NothingSupplied(name, content, position, included) {
        return Err(BadRequest);
      }
      var id := idArg.value;
      if id !in rows {
        // the lookup yields undefined and reading its part_type throws
        return Err(Failure);
      }
      var p := rows[id];
      var shown: Option<string> := None;
      if p.partType == File {
        var ok;
        ok, shown := SyncFile(p, name, content);
        if !ok {
          return Err(Failure);
        }
      }
      // a falsy name or content, a non-integer position and an absent
      // `included` are dropped from the update; a file's content never
      // reaches the row
      var q := p.(name := if Truthy(name) then name.value else p.name,
                  content := if Truthy(content) && p.partType == Snippet then content.value else p.content,
                  position := if position.Some? then position.value else p.position,
                  included := if included.Some? then included.value else p.included,
                  updatedAt := clock);
      rows := rows[id := q];
      clock := clock + 1;
      r := Ok(Reply(q, if p.partType == File then shown else Some(q.content)));
    }

    /** The file steps of an update of file part `p`: rename the backing file
        when a different name is supplied, then write the supplied content to
        the path of the (new) name, or else read that file back. `ok` is false
        when a step throws, and then nothing has changed. */
    method SyncFile(p: Part, name: Option<string>, content: Option<string>) returns (ok: bool, shown: Option<string>)
      requires p.partType == File
      modifies this`files
      ensures ok <==> !FileStepFails(p, name, content, projects, old(files))
      ensures !ok ==> files == old(files)
      ensures ok ==>
        var dir := projects[p.projectId];
        var from := Path(dir, p.name);
        var to := Path(dir, if Truthy(name) then name.value else p.name);
        && (Renames(p, name) ==> from in old(files) && to != from)
        && (!Renames(p, name) ==> to == from && (Truthy(content) || from in old(files)))
        && var moved := if Renames(p, name) then (old(files) - {from})[to := old(files)[from]] else old(files);
           && files == (if Truthy(content) then moved[to := content.value] else moved)
           && shown == (if Truthy(content) then None else Some(moved[to]))
    {
      shown := None;
      if p.projectId !in projects {
        return false, None;
      }
      var dir := projects[p.projectId];
      if Truthy(name) && name.value != p.name {
        var from := Path(dir, p.name);
        if from !in files {
          return false, None;
        }
        var moving := files[from];
        files := (files - {from})[Path(dir, name.value) := moving];
      }
      var target := Path(dir, if Truthy(name) then name.value else p.name);
      if Truthy(content) {
        files := files[target := content.value];
      } else {
        if target !in files {
          return false, None;
        }
        shown := Some(files[target]);
      }
      ok := true;
    }

    /** DELETE /api/prompt_parts/:id. `idArg` is `None` when the id does not
        parse as an integer. */
    method Delete(idArg: Option<int>) returns (r: Result<Snapshot>)
      requires Valid()
      modifies this
      ensures Valid()
      ensures projects == old(projects) && nextId == old(nextId) && clock == old(clock)
      ensures r == Err(BadRequest) <==> idArg.None? || idArg.value == 0
      ensures r == Err(NotFound) <==> idArg.Some? && idArg.value != 0 && idArg.value !in old(rows)
      ensures r == Err(Failure) <==>
        idArg.Some? && idArg.value != 0 && idArg.value in old(rows) && Orphan(old(rows[idArg.value]), projects)
      ensures r.Err? ==> r.error == BadRequest || r.error == NotFound || r.error == Failure
      ensures r.Err? ==> rows == old(rows) && files == old(files)
      ensures r.Ok? ==>
        var p := old(rows[idArg.value]);
        && rows == old(rows) - {idArg.value}
        && r.value == Snapshot(p.partType, p.projectId, p.name)
        && files == if p.partType == File then old(files) - {Path(projects[p.projectId], p.name)} else old(files)
    {
      if idArg.None? || idArg.value == 0 {
        return Err(BadRequest);
      }
      var id := idArg.value;
      if id !in rows {
        return Err(NotFound);
      }
      var p := rows[id];
      if p.partType == File {
        if p.projectId !in projects {
          return Err(Failure);
        }
        var path := Path(projects[p.projectId], p.name);
        if path in files {
          files := files - {path};
        }
      }
      rows := rows - {id};
      r := Ok(Snapshot(p.partType, p.projectId, p.name));
    }
  }
}
