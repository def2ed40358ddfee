/** The list logic of the client: the drag reorder, the prompt assembly, and
    the local list updates after a checkbox change, an editor save and a new
    snippet. The local list is a sequence of parts in display order. */
module Client {
  import opened Parts

  /** `s` with the element at `i` taken out. */
  function Remove<T>(s: seq<T>, i: nat): (r: seq<T>)
    requires i < |s|
    ensures |r| == |s| - 1
  {
    s[..i] + s[i + 1..]
  }

  /** The two splices of a drag: take the element at `drag` out, then insert
      it at `hover` of what is left. */
  function Reinsert<T>(s: seq<T>, drag: nat, hover: nat): (r: seq<T>)
    requires drag < |s| && hover < |s|
    ensures |r| == |s|
    ensures r[hover] == s[drag]
    ensures Remove(r, hover) == Remove(s, drag)
    ensures multiset(r) == multiset(s)
  {
    var rest := Remove(s, drag);
    var r := rest[..hover] + [s[drag]] + rest[hover..];
    assert rest == rest[..hover] + rest[hover..];
    assert s == s[..drag] + [s[drag]] + s[drag + 1..];
    assert r[..hover] + r[hover + 1..] == rest;
    calc {
      multiset(r);
      multiset(rest[..hover] + [s[drag]]) + multiset(rest[hover..]);
      multiset(rest[..hover]) + multiset([s[drag]]) + multiset(rest[hover..]);
      multiset(rest) + multiset([s[drag]]);
      multiset(s[..drag]) + multiset(s[drag + 1..]) + multiset([s[drag]]);
      multiset(s[..drag] + [s[drag]]) + multiset(s[drag + 1..]);
      multiset(s);
    }
    r
  }

  /** The ids of a list, in order. */
  function Ids(s: seq<Part>): (r: seq<int>)
    ensures |r| == |s|
    ensures forall i :: 0 <= i < |s| ==> r[i] == s[i].id
  {
    seq(|s|, i requires 0 <= i < |s| => s[i].id)
  }

  /** No id occurs twice. */
  predicate Distinct<T(==)>(s: seq<T>)
  {
    forall i, j :: 0 <= i < j < |s| ==> s[i] != s[j]
  }

  /** Every part's position is its index: positions are exactly 0..N-1. */
  predicate Contiguous(s: seq<Part>)
  {
    forall i :: 0 <= i < |s| ==> s[i].position == i
  }

  /** The `forEach` that sets each part's position to its index. */
  function Renumber(s: seq<Part>): (r: seq<Part>)
    ensures |r| == |s|
    ensures forall i :: 0 <= i < |s| ==> r[i] == s[i].(position := i)
  {
    seq(|s|, i requires 0 <= i < |s| => s[i].(position := i))
  }

  /** `movePromptPart`: the reordered, renumbered list and, in the new order,
      the position update sent for each part before the list is replaced. */
  method MovePart(parts: seq<Part>, drag: nat, hover: nat) returns (moved: seq<Part>, updates: seq<PositionUpdate>)
    requires drag < |parts| && hover < |parts|
    ensures moved == Renumber(Reinsert(parts, drag, hover))
    ensures Contiguous(moved)
    ensures moved[hover] == parts[drag].(position := hover)
    ensures |updates| == |moved|
    ensures forall i :: 0 <= i < |updates| ==> updates[i] == PositionUpdate(moved[i].id, i)
  {
    var dragged := parts[drag];
    var updated := parts[..drag] + parts[drag + 1..];
    updated := updated[..hover] + [dragged] + updated[hover..];
    ghost var order := updated;
    assert order == Reinsert(parts, drag, hover);
    var i := 0;
    while i < |updated|
      invariant 0 <= i <= |updated| == |order|
      invariant forall j :: 0 <= j < i ==> updated[j] == order[j].(position := j)
      invariant forall j :: i <= j < |updated| ==> updated[j] == order[j]
    {
      updated := updated[i := updated[i].(position := i)];
      i := i + 1;
    }
    updates := [];
    i := 0;
    while i < |updated|
      invariant 0 <= i <= |updated|
      invariant |updates| == i
      invariant forall j :: 0 <= j < i ==> updates[j] == PositionUpdate(updated[j].id, updated[j].position)
    {
      updates := updates + [PositionUpdate(updated[i].id, updated[i].position)];
      i := i + 1;
    }
    moved := updated;
  }

  /** Reordering keeps every id and changes only positions. */
  lemma MoveKeepsIds(parts: seq<Part>, drag: nat, hover: nat)
    requires drag < |parts| && hover < |parts|
    ensures multiset(Ids(Renumber(Reinsert(parts, drag, hover)))) == multiset(Ids(parts))
    ensures Remove(Ids(Renumber(Reinsert(parts, drag, hover))), hover) == Remove(Ids(parts), drag)
  {
    var r := Reinsert(parts, drag, hover);
    assert Ids(Renumber(r)) == Ids(r);
    IdsReinsert(parts, drag, hover);
  }

  lemma IdsReinsert(s: seq<Part>, drag: nat, hover: nat)
    requires drag < |s| && hover < |s|
    ensures Ids(Reinsert(s, drag, hover)) == Reinsert(Ids(s), drag, hover)
  {
    var rest, idRest := Remove(s, drag), Remove(Ids(s), drag);
    forall j | 0 <= j < |rest|
      ensures idRest[j] == rest[j].id
    {
      if j < drag {
        assert rest[j] == s[j] && idRest[j] == Ids(s)[j];
      } else {
        assert rest[j] == s[j + 1] && idRest[j] == Ids(s)[j + 1];
      }
    }
    var a, b := Ids(Reinsert(s, drag, hover)), Reinsert(Ids(s), drag, hover);
    assert Reinsert(s, drag, hover) == rest[..hover] + [s[drag]] + rest[hover..];
    assert b == idRest[..hover] + [Ids(s)[drag]] + idRest[hover..];
    forall i | 0 <= i < |s|
      ensures a[i] == b[i]
    {
      if i < hover {
        assert a[i] == rest[i].id && b[i] == idRest[i];
      } else if i > hover {
        assert a[i] == rest[i - 1].id && b[i] == idRest[i - 1];
      }
    }
  }

  /** One entry of the prompt: the part's name, a colon, a newline, then its
      content. */
  function Entry(p: Part): string
  {
    p.name + ":\n" + p.content
  }

  /** The parts whose checkbox is ticked, in list order. */
  function Included(s: seq<Part>): (r: seq<Part>)
    ensures |r| <= |s|
  {
    if s == [] then []
    else (if s[0].included then [s[0]] else []) + Included(s[1..])
  }

  function Entries(s: seq<Part>): (r: seq<string>)
    ensures |r| == |s|
    ensures forall i :: 0 <= i < |s| ==> r[i] == Entry(s[i])
  {
    seq(|s|, i requires 0 <= i < |s| => Entry(s[i]))
  }

  /** `Array.prototype.join`. */
  function Join(xs: seq<string>, sep: string): string
  {
    if xs == [] then ""
    else if |xs| == 1 then xs[0]
    else xs[0] + sep + Join(xs[1..], sep)
  }

  /** `copyPromptToClipboard`: the entries of the included parts, joined by
      a blank line. */
  function Prompt(s: seq<Part>): string
  {
    Join(Entries(Included(s)), "\n\n")
  }

  lemma {:induction false} IncludedConcat(a: seq<Part>, b: seq<Part>)
    ensures Included(a + b) == Included(a) + Included(b)
    decreases |a|
  {
    if a == [] {
      assert a + b == b;
    } else {
      var head := if a[0].included then [a[0]] else [];
      assert (a + b)[0] == a[0];
      assert (a + b)[1..] == a[1..] + b;
      assert Included(a + b) == head + Included(a[1..] + b);
      IncludedConcat(a[1..], b);
      assert Included(a) == head + Included(a[1..]);
      assert head + (Included(a[1..]) + Included(b)) == (head + Included(a[1..])) + Included(b);
    }
  }

  lemma {:induction false} JoinSnoc(xs: seq<string>, x: string, sep: string)
    ensures Join(xs + [x], sep) == if xs == [] then x else Join(xs, sep) + sep + x
    decreases |xs|
  {
    if xs == [] {
      assert xs + [x] == [x];
    } else if |xs| == 1 {
      assert (xs + [x])[1..] == [x];
    } else {
      assert (xs + [x])[1..] == xs[1..] + [x];
      JoinSnoc(xs[1..], x, sep);
    }
  }

  /** An excluded part contributes nothing, wherever it stands. */
  lemma PromptSkipsExcluded(a: seq<Part>, p: Part, b: seq<Part>)
    requires !p.included
    ensures Prompt(a + [p] + b) == Prompt(a + b)
  {
    IncludedConcat(a + [p], b);
    IncludedConcat(a, [p]);
    IncludedConcat(a, b);
    assert Included([p]) == [];
    assert Included(a) + [] == Included(a);
  }

  /** An included part adds its entry at the end, after a blank line unless
      it is the first included part. */
  lemma PromptAppend(s: seq<Part>, p: Part)
    requires p.included
    ensures Prompt(s + [p]) == if Included(s) == [] then Entry(p) else Prompt(s) + "\n\n" + Entry(p)
  {
    IncludedConcat(s, [p]);
    assert Included([p]) == [p];
    assert Entries(Included(s) + [p]) == Entries(Included(s)) + [Entry(p)];
    JoinSnoc(Entries(Included(s)), Entry(p), "\n\n");
  }

  /** The `map` of `handleCheckboxChange`: every part with the id gets the
      new `included`. */
  function SetIncluded(s: seq<Part>, id: int, checked: bool): (r: seq<Part>)
    ensures |r| == |s|
    ensures forall i :: 0 <= i < |s| ==> r[i].(included := s[i].included) == s[i]
    ensures forall i :: 0 <= i < |s| ==> r[i].included == if s[i].id == id then checked else s[i].included
  {
    if s == [] then []
    else [if s[0].id == id then s[0].(included := checked) else s[0]] + SetIncluded(s[1..], id, checked)
  }

  /** `handleCheckboxChange`: the new `included` is applied to the local list
      on an ok response only. */
  function CheckboxChange(s: seq<Part>, id: int, checked: bool, ok: bool): (r: seq<Part>)
    ensures |r| == |s|
    ensures forall i :: 0 <= i < |s| ==> r[i].(included := s[i].included) == s[i]
    ensures forall i :: 0 <= i < |s| ==> r[i].included == if ok && s[i].id == id then checked else s[i].included
  {
    if ok then SetIncluded(s, id, checked) else s
  }

  /** The parts of `s` other than those with this id. */
  function WithoutId(s: seq<Part>, id: int): (r: seq<Part>)
    ensures |r| <= |s|
  {
    if s == [] then []
    else (if s[0].id == id then [] else [s[0]]) + WithoutId(s[1..], id)
  }

  lemma WithoutIdHead(p: Part, s: seq<Part>, id: int)
    ensures WithoutId([p] + s, id) == if p.id == id then WithoutId(s, id) else [p] + WithoutId(s, id)
  {
    assert ([p] + s)[0] == p && ([p] + s)[1..] == s;
  }

  /** Unticking a part takes exactly that part out of the prompt. */
  lemma {:induction false} UncheckDropsFromPrompt(s: seq<Part>, id: int)
    ensures Included(SetIncluded(s, id, false)) == WithoutId(Included(s), id)
    decreases |s|
  {
    if s != [] {
      UncheckDropsFromPrompt(s[1..], id);
      var r := SetIncluded(s, id, false);
      assert r[1..] == SetIncluded(s[1..], id, false);
      assert Included(r) == (if r[0].included then [r[0]] else []) + Included(r[1..]);
      WithoutIdHead(s[0], Included(s[1..]), id);
      if s[0].included {
        assert Included(s) == [s[0]] + Included(s[1..]);
      } else {
        assert Included(s) == Included(s[1..]);
      }
      if r[0].included {
        assert r[0] == s[0] && s[0].id != id;
      } else {
        assert Included(r) == Included(r[1..]);
      }
    }
  }

  /** Ticking or unticking a part leaves every other part's place in the
      prompt as it was. */
  lemma {:induction false} CheckKeepsOthersInPrompt(s: seq<Part>, id: int, checked: bool)
    ensures WithoutId(Included(SetIncluded(s, id, checked)), id) == WithoutId(Included(s), id)
    decreases |s|
  {
    if s != [] {
      CheckKeepsOthersInPrompt(s[1..], id, checked);
      var r := SetIncluded(s, id, checked);
      assert r[1..] == SetIncluded(s[1..], id, checked);
      WithoutIdHead(s[0], Included(s[1..]), id);
      WithoutIdHead(r[0], Included(r[1..]), id);
      if r[0].included {
        assert Included(r) == [r[0]] + Included(r[1..]);
      } else {
        assert Included(r) == Included(r[1..]);
      }
      if s[0].included {
        assert Included(s) == [s[0]] + Included(s[1..]);
      } else {
        assert Included(s) == Included(s[1..]);
      }
    }
  }

  /** The `map` of `handleEditorSave`: every part with the id gets the new
      content. */
  function SetContent(s: seq<Part>, id: int, newContent: string): (r: seq<Part>)
    ensures |r| == |s|
    ensures forall i :: 0 <= i < |s| ==> r[i].(content := s[i].content) == s[i]
    ensures forall i :: 0 <= i < |s| ==> r[i].content == if s[i].id == id then newContent else s[i].content
  {
    if s == [] then []
    else [if s[0].id == id then s[0].(content := newContent) else s[0]] + SetContent(s[1..], id, newContent)
  }

  /** `handleEditorSave`: with a part selected, the new content is applied to
      the local list whatever the response; with none, nothing changes. */
  function EditorSave(s: seq<Part>, selected: Option<int>, newContent: string): (r: seq<Part>)
    ensures |r| == |s|
    ensures forall i :: 0 <= i < |s| ==> r[i].(content := s[i].content) == s[i]
    ensures forall i :: 0 <= i < |s| ==>
      r[i].content == if selected.Some? && s[i].id == selected.value then newContent else s[i].content
  {
    if selected.None? then s else SetContent(s, selected.value, newContent)
  }

  /** Saving content never changes which parts are in the prompt, nor their
      order. */
  lemma {:induction false} SaveKeepsPromptMembers(s: seq<Part>, id: int, newContent: string)
    ensures Ids(Included(SetContent(s, id, newContent))) == Ids(Included(s))
    decreases |s|
  {
    if s != [] {
      SaveKeepsPromptMembers(s[1..], id, newContent);
      var r := SetContent(s, id, newContent);
      assert r[1..] == SetContent(s[1..], id, newContent);
      var a, b := Included(r), Included(s);
      if s[0].included {
        assert Ids(a) == [r[0].id] + Ids(Included(r[1..]));
        assert Ids(b) == [s[0].id] + Ids(Included(s[1..]));
      } else {
        assert a == Included(r[1..]);
        assert b == Included(s[1..]);
      }
    }
  }

  /** A checkbox change or an editor save keeps positions 0..N-1. */
  lemma EditsKeepContiguous(s: seq<Part>, selected: Option<int>, newContent: string, id: int, checked: bool, ok: bool)
    requires Contiguous(s)
    ensures Contiguous(EditorSave(s, selected, newContent))
    ensures Contiguous(CheckboxChange(s, id, checked, ok))
  {
    var r, t := EditorSave(s, selected, newContent), CheckboxChange(s, id, checked, ok);
    forall i | 0 <= i < |s|
      ensures r[i].position == i && t[i].position == i
    {
      assert r[i].(content := s[i].content).position == r[i].position;
      assert t[i].(included := s[i].included).position == t[i].position;
    }
  }

  /** `handleNewSnippetClick`: the created part is appended at the end on an
      ok response only. */
  function NewSnippet(s: seq<Part>, ok: bool, created: Part): (r: seq<Part>)
    ensures |r| == if ok then |s| + 1 else |s|
    ensures r[..|s|] == s
    ensures ok ==> r[|s|] == created
    ensures !ok ==> r == s
  {
    if ok then s + [created] else s
  }

  /** A new snippet that is ticked adds its entry at the end of the prompt;
      one that is not ticked leaves the prompt as it was. */
  lemma NewSnippetPrompt(s: seq<Part>, created: Part)
    ensures Prompt(NewSnippet(s, true, created)) ==
      if !created.included then Prompt(s)
      else if Included(s) == [] then Entry(created)
      else Prompt(s) + "\n\n" + Entry(created)
  {
    if created.included {
      PromptAppend(s, created);
    } else {
      PromptSkipsExcluded(s, created, []);
      assert s + [created] + [] == s + [created];
      assert s + [] == s;
    }
  }
}
