/** Positions across the client and the server: the reorder's position
    updates applied to the store, and what create's `count + 1` rule does to
    a project's positions. */
module Reorder {
  import opened Parts
  import opened Backend
  import opened Client

  /** Project `pid`'s positions are base..base+N-1 for its N parts, each used
      by one part: no gap and no duplicate. */
  ghost predicate ProjectContiguous(rows: map<int, Part>, pid: int, base: int)
  {
    var ids := ProjectIds(rows, pid);
    && (forall id :: id in ids ==> base <= rows[id].position < base + |ids|)
    && (forall a, b :: a in ids && b in ids && a != b ==> rows[a].position != rows[b].position)
  }

  /** A part that a position-only update can change: its row exists and, for
      a file part, the project exists and the file can be read back. */
  predicate Updatable(rows: map<int, Part>, projects: map<int, string>, files: map<Path, string>, id: int)
  {
    id in rows && !FileStepFails(rows[id], None, None, projects, files)
  }

  /** Every field but `position` and `updated_at` is the same. */
  predicate SameButPosition(p: Part, q: Part)
  {
    p.id == q.id && p.projectId == q.projectId && p.name == q.name && p.partType == q.partType &&
    p.content == q.content && p.included == q.included && p.createdAt == q.createdAt
  }

  /** The ids of a list of position updates. */
  function Targets(updates: seq<PositionUpdate>): set<int>
  {
    set u | u in updates :: u.id
  }

  /** The loop of `movePromptPart` that sends one `PUT { position }` per part,
      in order, applied to the store; the responses are not looked at. */
  method ApplyPositionUpdates(store: Store, updates: seq<PositionUpdate>)
    requires store.Valid()
    requires forall i, j :: 0 <= i < j < |updates| ==> updates[i].id != updates[j].id
    requires forall u :: u in updates ==> Updatable(store.rows, store.projects, store.files, u.id)
    modifies store
    ensures store.Valid()
    ensures store.projects == old(store.projects) && store.files == old(store.files) && store.nextId == old(store.nextId)
    ensures store.rows.Keys == old(store.rows).Keys
    ensures forall id :: id in store.rows ==> SameButPosition(old(store.rows)[id], store.rows[id])
    ensures forall i :: 0 <= i < |updates| ==>
      updates[i].id in store.rows && store.rows[updates[i].id].position == updates[i].position
    ensures forall id :: id in store.rows && id !in Targets(updates) ==> store.rows[id] == old(store.rows)[id]
    ensures store.clock == old(store.clock) + |updates|
    ensures forall i :: 0 <= i < |updates| ==> store.rows[updates[i].id].updatedAt == old(store.clock) + i
  {
    var i := 0;
    while i < |updates|
      invariant 0 <= i <= |updates|
      invariant store.Valid()
      invariant store.projects == old(store.projects) && store.files == old(store.files) && store.nextId == old(store.nextId)
      invariant store.clock == old(store.clock) + i
      invariant Applied(old(store.rows), store.rows, updates, i, old(store.clock))
    {
      var u := updates[i];
      assert u in updates;
      assert Updatable(old(store.rows), store.projects, store.files, u.id);
      assert SameButPosition(old(store.rows)[u.id], store.rows[u.id]);
      ghost var rows := store.rows;
      SendPosition(store, u);
      ApplyStep(old(store.rows), rows, store.rows, updates, i, old(store.clock));
      i := i + 1;
    }
    assert updates[..i] == updates;
  }

  /** The first `n` updates applied to `start`, stamped from `stamp` on: no
      row added or removed, only positions and stamps changed, each of those
      updates written, and every row they do not target as it was. */
  ghost predicate Applied(start: map<int, Part>, rows: map<int, Part>, updates: seq<PositionUpdate>, n: nat, stamp: nat)
    requires n <= |updates|
  {
    && rows.Keys == start.Keys
    && (forall id :: id in rows ==> SameButPosition(start[id], rows[id]))
    && (forall j :: 0 <= j < n ==>
          updates[j].id in rows && rows[updates[j].id].position == updates[j].position &&
          rows[updates[j].id].updatedAt == stamp + j)
    && (forall id :: id in rows && id !in Targets(updates[..n]) ==> rows[id] == start[id])
  }

  /** Applying update `i` extends what the first `i` updates did. */
  lemma ApplyStep(start: map<int, Part>, rows: map<int, Part>, next: map<int, Part>,
                  updates: seq<PositionUpdate>, i: nat, stamp: nat)
    requires i < |updates|
    requires forall a, b :: 0 <= a < b < |updates| ==> updates[a].id != updates[b].id
    requires Applied(start, rows, updates, i, stamp)
    requires updates[i].id in rows
    requires next == rows[updates[i].id := rows[updates[i].id].(position := updates[i].position, updatedAt := stamp + i)]
    ensures Applied(start, next, updates, i + 1, stamp)
  {
    var u := updates[i];
    assert updates[..i + 1] == updates[..i] + [u];
    assert Targets(updates[..i + 1]) == Targets(updates[..i]) + {u.id};
    forall j | 0 <= j < i
      ensures updates[j].id != u.id
    {
    }
  }

  /** One `PUT { position }` of that loop: it succeeds on an updatable part
      and writes the position and the update stamp only. */
  method SendPosition(store: Store, u: PositionUpdate)
    requires store.Valid()
    requires Updatable(store.rows, store.projects, store.files, u.id)
    modifies store
    ensures store.Valid()
    ensures store.projects == old(store.projects) && store.files == old(store.files) && store.nextId == old(store.nextId)
    ensures store.rows == old(store.rows)[u.id := old(store.rows)[u.id].(position := u.position, updatedAt := old(store.clock))]
    ensures store.clock == old(store.clock) + 1
  {
    var r := store.Update(Some(u.id), None, None, Some(u.position), None);
    assert r.Ok?;
  }

  /** `movePromptPart` end to end: the local list is reordered and renumbered
      and its position updates are applied to the store. When the list holds
      exactly the parts of project `pid`, their stored positions are then
      0..N-1 with no gap and no duplicate. */
  method MoveAndSave(store: Store, parts: seq<Part>, drag: nat, hover: nat, pid: int) returns (moved: seq<Part>)
    requires store.Valid()
    requires drag < |parts| && hover < |parts|
    requires Distinct(Ids(parts))
    requires forall p :: p in parts ==> Updatable(store.rows, store.projects, store.files, p.id)
    modifies store
    ensures moved == Renumber(Reinsert(parts, drag, hover))
    ensures store.Valid()
    ensures store.projects == old(store.projects) && store.files == old(store.files) && store.nextId == old(store.nextId)
    ensures store.rows.Keys == old(store.rows).Keys
    ensures forall id :: id in store.rows ==> SameButPosition(old(store.rows)[id], store.rows[id])
    ensures forall id :: id in store.rows && id !in Ids(parts) ==> store.rows[id] == old(store.rows)[id]
    ensures forall i :: 0 <= i < |moved| ==> moved[i].id in store.rows && store.rows[moved[i].id].position == i
    ensures store.clock == old(store.clock) + |parts|
    ensures forall i :: 0 <= i < |moved| ==> store.rows[moved[i].id].updatedAt == old(store.clock) + i
    ensures (set p | p in parts :: p.id) == ProjectIds(old(store.rows), pid) ==> ProjectContiguous(store.rows, pid, 0)
  {
    ghost var before := store.rows;
    ghost var stamp := store.clock;
    var updates;
    moved, updates := MovePart(parts, drag, hover);
    MovedIds(parts, drag, hover);
    UpdatesTargetParts(parts, moved, updates, store.rows, store.projects, store.files);
    ApplyPositionUpdates(store, updates);
    UpdatesApplied(moved, updates, store.rows, stamp);
    if (set p | p in parts :: p.id) == ProjectIds(before, pid) {
      ProjectIdsKept(before, store.rows, pid);
      IndexPositionsContiguous(store.rows, pid, Ids(moved));
    }
  }

  /** The reorder's updates target the parts of the list, once each. */
  lemma UpdatesTargetParts(parts: seq<Part>, moved: seq<Part>, updates: seq<PositionUpdate>,
                           rows: map<int, Part>, projects: map<int, string>, files: map<Path, string>)
    requires |updates| == |moved|
    requires forall i :: 0 <= i < |moved| ==> updates[i] == PositionUpdate(moved[i].id, i)
    requires Distinct(Ids(moved))
    requires forall x :: x in Ids(moved) ==> x in Ids(parts)
    requires forall p :: p in parts ==> Updatable(rows, projects, files, p.id)
    ensures forall i, j :: 0 <= i < j < |updates| ==> updates[i].id != updates[j].id
    ensures forall u :: u in updates ==> Updatable(rows, projects, files, u.id)
    ensures forall x :: x in Targets(updates) ==> x in Ids(parts)
  {
    forall i, j | 0 <= i < j < |updates|
      ensures updates[i].id != updates[j].id
    {
      assert Ids(moved)[i] == updates[i].id && Ids(moved)[j] == updates[j].id;
    }
    forall x | x in Targets(updates)
      ensures x in Ids(parts)
    {
      var u :| u in updates && u.id == x;
      var i :| 0 <= i < |updates| && updates[i] == u;
      assert Ids(moved)[i] == x;
    }
    forall u | u in updates
      ensures Updatable(rows, projects, files, u.id)
    {
      var i :| 0 <= i < |updates| && updates[i] == u;
      assert Ids(moved)[i] == u.id && u.id in Ids(moved);
      var j :| 0 <= j < |parts| && Ids(parts)[j] == u.id;
      assert parts[j] in parts;
    }
  }

  /** Once every update is applied, each part's stored position is its
      index in the reordered list. */
  lemma UpdatesApplied(moved: seq<Part>, updates: seq<PositionUpdate>, rows: map<int, Part>, stamp: int)
    requires |updates| == |moved|
    requires forall i :: 0 <= i < |moved| ==> updates[i] == PositionUpdate(moved[i].id, i)
    requires forall i :: 0 <= i < |updates| ==> updates[i].id in rows && rows[updates[i].id].position == updates[i].position
    requires forall i :: 0 <= i < |updates| ==> rows[updates[i].id].updatedAt == stamp + i
    ensures forall i :: 0 <= i < |moved| ==> moved[i].id in rows && rows[moved[i].id].position == i
    ensures forall i :: 0 <= i < |moved| ==> rows[moved[i].id].updatedAt == stamp + i
  {
    forall i | 0 <= i < |moved|
      ensures moved[i].id in rows && rows[moved[i].id].position == i
    {
      assert updates[i] == PositionUpdate(moved[i].id, i);
    }
    forall i | 0 <= i < |moved|
      ensures rows[moved[i].id].updatedAt == stamp + i
    {
      assert updates[i].id == moved[i].id;
    }
  }

  /** The reordered list holds the same ids, still each once. */
  lemma MovedIds(parts: seq<Part>, drag: nat, hover: nat)
    requires drag < |parts| && hover < |parts|
    requires Distinct(Ids(parts))
    ensures Distinct(Ids(Renumber(Reinsert(parts, drag, hover))))
    ensures forall x :: x in Ids(Renumber(Reinsert(parts, drag, hover))) <==> x in Ids(parts)
    ensures (set x | x in Ids(Renumber(Reinsert(parts, drag, hover)))) == (set p | p in parts :: p.id)
  {
    var ids := Ids(Renumber(Reinsert(parts, drag, hover)));
    MoveKeepsIds(parts, drag, hover);
    DistinctSameMultiset(ids, Ids(parts));
    forall x
      ensures x in ids <==> x in Ids(parts)
    {
      assert x in ids <==> x in multiset(ids);
      assert x in Ids(parts) <==> x in multiset(Ids(parts));
    }
    forall x | x in Ids(parts)
      ensures x in (set p | p in parts :: p.id)
    {
      var k :| 0 <= k < |parts| && Ids(parts)[k] == x;
      assert parts[k] in parts;
    }
    forall p | p in parts
      ensures p.id in Ids(parts)
    {
      var k :| 0 <= k < |parts| && parts[k] == p;
      assert Ids(parts)[k] == p.id;
    }
  }

  /** Position updates leave every project's set of parts as it was. */
  lemma ProjectIdsKept(before: map<int, Part>, after: map<int, Part>, pid: int)
    requires after.Keys == before.Keys
    requires forall id :: id in after ==> SameButPosition(before[id], after[id])
    ensures ProjectIds(after, pid) == ProjectIds(before, pid)
  {
    forall id | id in after
      ensures after[id].projectId == before[id].projectId
    {
      assert SameButPosition(before[id], after[id]);
    }
  }

  /** A list of distinct ids holding exactly the project's ids, each stored
      with its index as position, makes the project's positions 0..N-1. */
  lemma IndexPositionsContiguous(rows: map<int, Part>, pid: int, ids: seq<int>)
    requires Distinct(ids)
    requires (set x | x in ids) == ProjectIds(rows, pid)
    requires forall i :: 0 <= i < |ids| ==> ids[i] in rows && rows[ids[i]].position == i
    ensures ProjectContiguous(rows, pid, 0)
  {
    var project := ProjectIds(rows, pid);
    DistinctCard(ids);
    forall id | id in project
      ensures 0 <= rows[id].position < |project|
    {
      var i :| 0 <= i < |ids| && ids[i] == id;
    }
    forall a, b | a in project && b in project && a != b
      ensures rows[a].position != rows[b].position
    {
      var i :| 0 <= i < |ids| && ids[i] == a;
      var j :| 0 <= j < |ids| && ids[j] == b;
    }
  }

  /** A list with no repeated element has as many distinct elements as it is
      long. */
  lemma {:induction false} DistinctCard<T>(s: seq<T>)
    requires Distinct(s)
    ensures |(set x | x in s)| == |s|
    decreases |s|
  {
    if s != [] {
      var t := s[..|s| - 1];
      var last := s[|s| - 1];
      assert Distinct(t);
      DistinctCard(t);
      assert s == t + [last];
      assert (set x | x in s) == (set x | x in t) + {last};
      assert last !in (set x | x in t) by {
        forall x | x in t
          ensures x != last
        {
          var i :| 0 <= i < |t| && t[i] == x;
          assert s[i] == x;
        }
      }
    }
  }

  /** With no repeated element, each element occurs once. */
  lemma {:induction false} DistinctCounts<T>(s: seq<T>)
    requires Distinct(s)
    ensures forall x :: multiset(s)[x] <= 1
    decreases |s|
  {
    if s != [] {
      var t := s[..|s| - 1];
      var last := s[|s| - 1];
      assert Distinct(t);
      DistinctCounts(t);
      assert s == t + [last];
      assert multiset(t)[last] == 0 by {
        forall i | 0 <= i < |t|
          ensures t[i] != last
        {
          assert s[i] == t[i];
        }
      }
    }
  }

  /** A rearrangement of a list with no repeated element has none either. */
  lemma DistinctSameMultiset<T>(a: seq<T>, b: seq<T>)
    requires multiset(a) == multiset(b)
    requires Distinct(b)
    ensures Distinct(a)
  {
    DistinctCounts(b);
    forall i, j | 0 <= i < j < |a|
      ensures a[i] != a[j]
    {
      assert a == a[..j] + [a[j]] + a[j + 1..];
      assert multiset(a)[a[j]] == multiset(a[..j])[a[j]] + 1 + multiset(a[j + 1..])[a[j]];
      assert multiset(a[..j])[a[j]] == 0;
      assert a[..j][i] == a[i];
    }
  }

  /** Create gives the new part position `count + 1`: positions 1..N stay
      1..N+1. */
  lemma CreateKeepsOneBased(rows: map<int, Part>, pid: int, id: int, row: Part)
    requires ProjectContiguous(rows, pid, 1)
    requires id !in rows && row.projectId == pid && row.position == |ProjectIds(rows, pid)| + 1
    ensures ProjectContiguous(rows[id := row], pid, 1)
  {
    assert ProjectIds(rows[id := row], pid) == ProjectIds(rows, pid) + {id};
  }

  /** Create after a reorder: the reorder numbers from 0 and create from
      `count + 1`, so position N is left unused and the new part sits at
      N+1. */
  lemma CreateAfterReorderLeavesGap(rows: map<int, Part>, pid: int, id: int, row: Part)
    requires ProjectContiguous(rows, pid, 0)
    requires id !in rows && row.projectId == pid && row.position == |ProjectIds(rows, pid)| + 1
    ensures var after := rows[id := row];
      && !ProjectContiguous(after, pid, 0)
      && forall x :: x in ProjectIds(after, pid) ==> after[x].position != |ProjectIds(rows, pid)|
  {
    var after := rows[id := row];
    assert ProjectIds(after, pid) == ProjectIds(rows, pid) + {id};
    assert id in ProjectIds(after, pid) && after[id].position >= 0 + |ProjectIds(after, pid)|;
  }

  /** Delete does not renumber: after deleting a part other than the last,
      the next create reuses the last part's position. */
  lemma CreateAfterDeleteDuplicates(rows: map<int, Part>, pid: int, gone: int, last: int, id: int, row: Part)
    requires gone in ProjectIds(rows, pid) && last in ProjectIds(rows, pid) && gone != last
    requires rows[last].position == |ProjectIds(rows, pid)|
    requires id !in rows && row.projectId == pid
    requires row.position == |ProjectIds(rows - {gone}, pid)| + 1
    ensures var after := (rows - {gone})[id := row];
      && last in ProjectIds(after, pid) && id in ProjectIds(after, pid) && last != id
      && after[last].position == after[id].position
  {
    assert ProjectIds(rows - {gone}, pid) == ProjectIds(rows, pid) - {gone};
  }
}
