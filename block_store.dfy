/**
 * The front end's block list (src/App.tsx).
 *
 * The list of blocks is one state field that every handler replaces
 * wholesale. Each handler computes the new list from the old one with a
 * pure expression (filter, map, find, two splices and a renumbering) and
 * makes at most one backend call. The backend call is not modelled as a
 * concurrent task: a handler receives how the call ended (`Reply`) and
 * returns the call it made (`Command`).
 */
module BlockStore {
  import opened Common
  import NoteFile

  /**
   * A block as the front end holds it. `order` is absent on blocks that come
   * from `load_notes` (the backend record has no such field) until the first
   * reorder; `tags` is never set by the handlers and stays empty.
   */
  datatype NoteBlock = NoteBlock(
    id: string,
    title: string,
    content: string,
    isCollapsed: bool,
    order: Option<nat>,
    tags: seq<string>)

  /** The backend calls the handlers make. */
  datatype Command =
    | SaveBlock(block: NoteBlock)
    | DeleteBlock(blockId: string)
    | UpdateOrders(orders: seq<(string, nat)>)

  /** How a backend call ended: resolved with a value, or rejected. */
  datatype Reply<T> = Resolved(value: T) | Rejected

  function Ids(s: seq<NoteBlock>): seq<string> {
    seq(|s|, i requires 0 <= i < |s| => s[i].id)
  }

  predicate UniqueIds(s: seq<NoteBlock>) {
    forall i, j :: 0 <= i < j < |s| ==> s[i].id != s[j].id
  }

  /** Every block's `order` is its position. */
  predicate OrdersArePositions(s: seq<NoteBlock>) {
    forall i :: 0 <= i < |s| ==> s[i].order == Some(i)
  }

  /** A block loaded from the backend: no `order`, no `tags`. */
  function FromRecord(r: NoteFile.NoteRecord): NoteBlock {
    NoteBlock(r.id, r.title, r.content, r.isCollapsed, None, [])
  }

  function FromRecords(rs: seq<NoteFile.NoteRecord>): seq<NoteBlock> {
    seq(|rs|, i requires 0 <= i < |rs| => FromRecord(rs[i]))
  }

  // ---------------------------------------------------------------------------
  // Search filter

  /** `toLowerCase` on the ASCII letters; every other character is kept. */
  function LowerChar(c: char): char {
    if 'A' <= c <= 'Z' then (c as int + 32) as char else c
  }

  function Lower(s: string): (r: string)
    ensures |r| == |s|
    ensures forall i :: 0 <= i < |s| ==> !('A' <= r[i] <= 'Z')
    ensures forall i :: 0 <= i < |s| && !('A' <= s[i] <= 'Z') ==> r[i] == s[i]
  {
    seq(|s|, i requires 0 <= i < |s| => LowerChar(s[i]))
  }

  /** The lowercased title or the lowercased content contains the lowercased term. */
  predicate Matches(b: NoteBlock, term: string) {
    Includes(Lower(b.title), Lower(term)) || Includes(Lower(b.content), Lower(term))
  }

  /** `blocks.filter(...)`: the blocks that match, in their order. */
  function Filter(s: seq<NoteBlock>, term: string): (r: seq<NoteBlock>)
    ensures |r| <= |s|
    ensures forall b :: b in r ==> b in s && Matches(b, term)
  {
    if |s| == 0 then []
    else if Matches(s[0], term) then [s[0]] + Filter(s[1..], term)
    else Filter(s[1..], term)
  }

  /** A block survives the filter exactly when it matches. */
  lemma {:induction false} FilterMembers(s: seq<NoteBlock>, term: string, b: NoteBlock)
    ensures b in Filter(s, term) <==> b in s && Matches(b, term)
  {
    if |s| > 0 {
      FilterMembers(s[1..], term, b);
      assert s == [s[0]] + s[1..];
    }
  }

  /** The filter keeps relative order: it works piecewise on a concatenation. */
  lemma {:induction false} FilterAppend(a: seq<NoteBlock>, b: seq<NoteBlock>, term: string)
    ensures Filter(a + b, term) == Filter(a, term) + Filter(b, term)
  {
    if |a| > 0 {
      assert (a + b)[1..] == a[1..] + b;
      FilterAppend(a[1..], b, term);
    } else {
      assert a + b == b;
    }
  }

  /** The filter keeps the whole list exactly when every block matches. */
  lemma {:induction false} FilterKeepsAll(s: seq<NoteBlock>, term: string)
    ensures Filter(s, term) == s <==> forall i :: 0 <= i < |s| ==> Matches(s[i], term)
  {
    if |s| > 0 {
      FilterKeepsAll(s[1..], term);
      if !Matches(s[0], term) {
        assert |Filter(s[1..], term)| < |s|;
      }
      if forall i :: 0 <= i < |s| ==> Matches(s[i], term) {
        assert forall i :: 0 <= i < |s[1..]| ==> Matches(s[1..][i], term) by {
          forall i | 0 <= i < |s[1..]| ensures Matches(s[1..][i], term) {
            assert s[1..][i] == s[i + 1];
          }
        }
      }
      if Filter(s, term) == s {
        assert Matches(s[0], term);
        assert Filter(s[1..], term) == s[1..];
      }
    }
  }

  /** An empty search term keeps every block. */
  lemma EmptyTermKeepsAll(s: seq<NoteBlock>)
    ensures Filter(s, "") == s
  {
    assert Lower("") == "";
    forall i | 0 <= i < |s| ensures Matches(s[i], "") {
      IncludesEmpty(Lower(s[i].title));
    }
    FilterKeepsAll(s, "");
  }

  // ---------------------------------------------------------------------------
  // New block

  /** The literal `addNewBlock` builds: empty title and content, expanded, at the end. */
  function NewBlock(id: string, order: nat): NoteBlock {
    NoteBlock(id, "", "", false, Some(order), [])
  }

  /** Appending with `order` = old length keeps `order` equal to the position. */
  lemma AppendKeepsPositions(s: seq<NoteBlock>, id: string)
    requires OrdersArePositions(s)
    ensures OrdersArePositions(s + [NewBlock(id, |s|)])
  {
  }

  /** Appending a fresh id keeps ids unique. */
  lemma AppendKeepsUnique(s: seq<NoteBlock>, id: string)
    requires UniqueIds(s) && id !in Ids(s)
    ensures UniqueIds(s + [NewBlock(id, |s|)])
  {
    forall i | 0 <= i < |s| ensures s[i].id != id {
      assert Ids(s)[i] == s[i].id;
    }
  }

  // ---------------------------------------------------------------------------
  // Title, content and collapse edits by id

  datatype Edit = SetTitle(title: string) | SetContent(content: string) | FlipCollapsed

  /** `{ ...block, title }`, `{ ...block, content }`, `{ ...block, isCollapsed: !block.isCollapsed }`. */
  function ApplyEdit(b: NoteBlock, e: Edit): NoteBlock {
    match e
    case SetTitle(t) => b.(title := t)
    case SetContent(c) => b.(content := c)
    case FlipCollapsed => b.(isCollapsed := !b.isCollapsed)
  }

  /** `blocks.map(block => block.id === id ? edited : block)`. */
  function EditWhere(s: seq<NoteBlock>, id: string, e: Edit): seq<NoteBlock> {
    if |s| == 0 then []
    else [if s[0].id == id then ApplyEdit(s[0], e) else s[0]] + EditWhere(s[1..], id, e)
  }

  /** Position by position: blocks with the id are edited, all others are equal. */
  lemma {:induction false} EditWhereAt(s: seq<NoteBlock>, id: string, e: Edit)
    ensures |EditWhere(s, id, e)| == |s|
    ensures forall i :: 0 <= i < |s| ==>
              EditWhere(s, id, e)[i] == if s[i].id == id then ApplyEdit(s[i], e) else s[i]
  {
    if |s| > 0 {
      EditWhereAt(s[1..], id, e);
      forall i | 1 <= i < |s|
        ensures EditWhere(s, id, e)[i] == if s[i].id == id then ApplyEdit(s[i], e) else s[i]
      {
        assert EditWhere(s, id, e)[i] == EditWhere(s[1..], id, e)[i - 1];
        assert s[1..][i - 1] == s[i];
      }
    }
  }

  /** An edit changes exactly one field of the matching blocks, and never an id. */
  lemma EditChangesOneField(s: seq<NoteBlock>, id: string, e: Edit)
    ensures Ids(EditWhere(s, id, e)) == Ids(s)
    ensures forall i :: 0 <= i < |s| && s[i].id == id ==>
              var b, b' := s[i], EditWhere(s, id, e)[i];
              b'.order == b.order && b'.tags == b.tags &&
              (if e.SetTitle? then b' == b.(title := e.title)
               else if e.SetContent? then b' == b.(content := e.content)
               else b' == b.(isCollapsed := !b.isCollapsed))
  {
    EditWhereAt(s, id, e);
  }

  /** After an edit, `find` returns the edited version of the block it found before. */
  lemma {:induction false} FindEdited(s: seq<NoteBlock>, id: string, e: Edit)
    ensures FindById(EditWhere(s, id, e), id) ==
              match FindById(s, id)
              case None => None
              case Some(b) => Some(ApplyEdit(b, e))
  {
    if |s| > 0 {
      var r := EditWhere(s, id, e);
      assert r[0] == if s[0].id == id then ApplyEdit(s[0], e) else s[0];
      assert r[1..] == EditWhere(s[1..], id, e);
      FindEdited(s[1..], id, e);
    }
  }

  /** With an id that no block has, the list is unchanged. */
  lemma {:induction false} EditUnknownId(s: seq<NoteBlock>, id: string, e: Edit)
    requires id !in Ids(s)
    ensures EditWhere(s, id, e) == s
  {
    EditWhereAt(s, id, e);
    forall i | 0 <= i < |s| ensures s[i].id != id {
      assert Ids(s)[i] == s[i].id;
    }
  }

  /** An edit keeps ids unique, since it never changes an id. */
  lemma EditKeepsUnique(s: seq<NoteBlock>, id: string, e: Edit)
    requires UniqueIds(s)
    ensures UniqueIds(EditWhere(s, id, e))
  {
    var r := EditWhere(s, id, e);
    EditChangesOneField(s, id, e);
    forall i | 0 <= i < |r| ensures r[i].id == s[i].id {
      assert Ids(r)[i] == r[i].id && Ids(s)[i] == s[i].id;
    }
  }

  /** Toggling the same id twice restores the original list. */
  lemma {:induction false} ToggleTwice(s: seq<NoteBlock>, id: string)
    ensures EditWhere(EditWhere(s, id, FlipCollapsed), id, FlipCollapsed) == s
  {
    if |s| > 0 {
      ToggleTwice(s[1..], id);
    }
  }

  /** `updatedBlocks.find(block => block.id === id)`: the first block with the id. */
  function FindById(s: seq<NoteBlock>, id: string): (r: Option<NoteBlock>)
    ensures r.Some? ==> r.value in s && r.value.id == id
  {
    if |s| == 0 then None
    else if s[0].id == id then Some(s[0])
    else FindById(s[1..], id)
  }

  /** `find` fails exactly when no block has the id, and otherwise returns the first one. */
  lemma {:induction false} FindByIdFirst(s: seq<NoteBlock>, id: string)
    ensures FindById(s, id).None? <==> id !in Ids(s)
    ensures FindById(s, id).Some? ==>
              exists k :: 0 <= k < |s| && s[k] == FindById(s, id).value &&
                          forall j :: 0 <= j < k ==> s[j].id != id
  {
    if |s| > 0 {
      assert Ids(s) == [s[0].id] + Ids(s[1..]);
      if s[0].id != id {
        FindByIdFirst(s[1..], id);
        if FindById(s[1..], id).Some? {
          var k :| 0 <= k < |s[1..]| && s[1..][k] == FindById(s[1..], id).value &&
                   forall j :: 0 <= j < k ==> s[1..][j].id != id;
          assert s[k + 1] == FindById(s, id).value;
          forall j | 0 <= j < k + 1 ensures s[j].id != id {
            if j > 0 { assert s[j] == s[1..][j - 1]; }
          }
        }
      }
    }
  }

  // ---------------------------------------------------------------------------
  // Delete

  /** `blocks.filter(block => block.id !== id)`. */
  function Without(s: seq<NoteBlock>, id: string): (r: seq<NoteBlock>)
    ensures |r| <= |s|
    ensures forall b :: b in r ==> b in s && b.id != id
  {
    if |s| == 0 then []
    else if s[0].id == id then Without(s[1..], id)
    else [s[0]] + Without(s[1..], id)
  }

  /** Exactly the blocks with another id remain, each unchanged (its `order` is not renumbered). */
  lemma {:induction false} WithoutMembers(s: seq<NoteBlock>, id: string, b: NoteBlock)
    ensures b in Without(s, id) <==> b in s && b.id != id
  {
    if |s| > 0 {
      WithoutMembers(s[1..], id, b);
      assert s == [s[0]] + s[1..];
    }
  }

  /** Deleting keeps relative order: it works piecewise on a concatenation. */
  lemma {:induction false} WithoutAppend(a: seq<NoteBlock>, b: seq<NoteBlock>, id: string)
    ensures Without(a + b, id) == Without(a, id) + Without(b, id)
  {
    if |a| > 0 {
      assert (a + b)[1..] == a[1..] + b;
      WithoutAppend(a[1..], b, id);
    } else {
      assert a + b == b;
    }
  }

  /** Deleting an id that no block has leaves the list unchanged. */
  lemma {:induction false} WithoutUnknownId(s: seq<NoteBlock>, id: string)
    requires id !in Ids(s)
    ensures Without(s, id) == s
  {
    if |s| > 0 {
      assert Ids(s) == [s[0].id] + Ids(s[1..]);
      WithoutUnknownId(s[1..], id);
    }
  }

  /** Deleting keeps ids unique. */
  lemma {:induction false} WithoutKeepsUnique(s: seq<NoteBlock>, id: string)
    requires UniqueIds(s)
    ensures UniqueIds(Without(s, id))
  {
    if |s| > 0 {
      var tail := s[1..];
      assert UniqueIds(tail) by {
        forall i, j | 0 <= i < j < |tail| ensures tail[i].id != tail[j].id {
          assert tail[i] == s[i + 1] && tail[j] == s[j + 1];
        }
      }
      WithoutKeepsUnique(tail, id);
      if s[0].id != id {
        forall b | b in Without(tail, id) ensures b.id != s[0].id {
          var k :| 0 <= k < |tail| && tail[k] == b;
          assert s[k + 1] == b;
        }
        ConsUnique(s[0], Without(tail, id));
      }
    }
  }

  /** A block whose id no block of a unique list has can go in front of it. */
  lemma ConsUnique(x: NoteBlock, w: seq<NoteBlock>)
    requires UniqueIds(w) && forall b :: b in w ==> b.id != x.id
    ensures UniqueIds([x] + w)
  {
    var r := [x] + w;
    forall i, j | 0 <= i < j < |r| ensures r[i].id != r[j].id {
      assert r[j] == w[j - 1];
      if i > 0 {
        assert r[i] == w[i - 1];
      }
    }
  }

  // ---------------------------------------------------------------------------
  // Reorder

  /** `items.splice(from, 1)`. */
  function Remove(s: seq<NoteBlock>, from: nat): seq<NoteBlock>
    requires from < |s|
  {
    s[..from] + s[from + 1..]
  }

  /** `items.splice(to, 0, x)`. */
  function Insert(s: seq<NoteBlock>, to: nat, x: NoteBlock): seq<NoteBlock>
    requires to <= |s|
  {
    s[..to] + [x] + s[to..]
  }

  /** The two splices of the drag handler. */
  function Moved(s: seq<NoteBlock>, from: nat, to: nat): (r: seq<NoteBlock>)
    requires from < |s| && to < |s|
    ensures |r| == |s| && r[to] == s[from]
  {
    Insert(Remove(s, from), to, s[from])
  }

  /** `items.map((item, index) => ({ ...item, order: index }))`. */
  function Renumbered(s: seq<NoteBlock>): (r: seq<NoteBlock>)
    ensures |r| == |s| && OrdersArePositions(r)
    ensures Ids(r) == Ids(s)
  {
    seq(|s|, i requires 0 <= i < |s| => s[i].(order := Some(i)))
  }

  /** `updatedItems.map(item => [item.id, item.order])`. */
  function OrdersOf(s: seq<NoteBlock>): seq<(string, nat)>
    requires forall i :: 0 <= i < |s| ==> s[i].order.Some?
  {
    seq(|s|, i requires 0 <= i < |s| => (s[i].id, s[i].order.value))
  }

  /**
   * Where every block goes: the dragged block lands at `to`, the blocks
   * between the two places shift by one toward `from`, all others stay.
   */
  lemma MovedAt(s: seq<NoteBlock>, from: nat, to: nat)
    requires from < |s| && to < |s|
    ensures |Moved(s, from, to)| == |s|
    ensures Moved(s, from, to)[to] == s[from]
    ensures forall k :: 0 <= k < |s| && k != to ==>
              Moved(s, from, to)[k] ==
                if from < to && from <= k < to then s[k + 1]
                else if to < from && to < k <= from then s[k - 1]
                else s[k]
  {
    var rest := Remove(s, from);
    assert Moved(s, from, to) == rest[..to] + [s[from]] + rest[to..];
  }

  /** The moved list is a permutation of the old one. */
  lemma MovedIsPermutation(s: seq<NoteBlock>, from: nat, to: nat)
    requires from < |s| && to < |s|
    ensures multiset(Moved(s, from, to)) == multiset(s)
  {
    var rest := Remove(s, from);
    assert s == s[..from] + [s[from]] + s[from + 1..];
    assert multiset(s) == multiset(s[..from]) + multiset([s[from]]) + multiset(s[from + 1..]);
    assert multiset(rest) == multiset(s[..from]) + multiset(s[from + 1..]);
    assert rest == rest[..to] + rest[to..];
    assert multiset(rest) == multiset(rest[..to]) + multiset(rest[to..]);
    assert Moved(s, from, to) == rest[..to] + [s[from]] + rest[to..];
    assert multiset(Moved(s, from, to)) == multiset(rest[..to]) + multiset([s[from]]) + multiset(rest[to..]);
    assert multiset(Moved(s, from, to)) == multiset(rest) + multiset([s[from]]);
  }

  /** Renumbering sets `order` to the position and changes nothing else. */
  lemma RenumberedAt(s: seq<NoteBlock>)
    ensures |Renumbered(s)| == |s|
    ensures OrdersArePositions(Renumbered(s))
    ensures forall i :: 0 <= i < |s| ==> Renumbered(s)[i].(order := s[i].order) == s[i]
  {
  }

  /** The `update_orders` payload is each id paired with its new position, in list order. */
  lemma PayloadIsPositions(s: seq<NoteBlock>)
    ensures |OrdersOf(Renumbered(s))| == |s|
    ensures forall i :: 0 <= i < |s| ==> OrdersOf(Renumbered(s))[i] == (s[i].id, i)
  {
  }

  /** A reorder keeps the multiset of ids. */
  lemma ReorderKeepsIds(s: seq<NoteBlock>, from: nat, to: nat)
    requires from < |s| && to < |s|
    ensures multiset(Ids(Renumbered(Moved(s, from, to)))) == multiset(Ids(s))
  {
    var m := Moved(s, from, to);
    MovedIsPermutation(s, from, to);
    assert Ids(Renumbered(m)) == Ids(m);
    IdsOfPermutation(s, m);
  }

  /** Lists that are permutations of each other have the same multiset of ids. */
  lemma {:induction false} IdsOfPermutation(s: seq<NoteBlock>, t: seq<NoteBlock>)
    requires multiset(s) == multiset(t)
    ensures multiset(Ids(s)) == multiset(Ids(t))
    decreases |s|
  {
    if |s| == 0 {
      assert |t| == |multiset(t)| == 0;
    } else {
      var x := s[0];
      assert x in multiset(t);
      var k :| 0 <= k < |t| && t[k] == x;
      RemoveOne(s, 0);
      RemoveOne(t, k);
      assert s[..0] + s[1..] == s[1..];
      assert multiset(s[1..]) == multiset(s) - multiset{x};
      assert multiset(t[..k] + t[k + 1..]) == multiset(t) - multiset{x};
      IdsOfPermutation(s[1..], t[..k] + t[k + 1..]);
    }
  }

  /** Taking out the block at position k takes out one copy of it and of its id. */
  lemma RemoveOne(t: seq<NoteBlock>, k: nat)
    requires k < |t|
    ensures multiset(t) == multiset(t[..k] + t[k + 1..]) + multiset{t[k]}
    ensures multiset(Ids(t)) == multiset(Ids(t[..k] + t[k + 1..])) + multiset{t[k].id}
  {
    assert t == t[..k] + [t[k]] + t[k + 1..];
    IdsAppend(t[..k] + [t[k]], t[k + 1..]);
    IdsAppend(t[..k], [t[k]]);
    IdsAppend(t[..k], t[k + 1..]);
    assert Ids([t[k]]) == [t[k].id];
  }

  lemma IdsAppend(a: seq<NoteBlock>, b: seq<NoteBlock>)
    ensures Ids(a + b) == Ids(a) + Ids(b)
  {
  }

  /** Dropping a block onto its own place only renumbers. */
  lemma MovedSameIndex(s: seq<NoteBlock>, i: nat)
    requires i < |s|
    ensures Moved(s, i, i) == s
    ensures Renumbered(Moved(s, i, i)) == Renumbered(s)
  {
    assert s == s[..i] + [s[i]] + s[i + 1..];
  }

  /**
   * The drag indices are positions in the filtered list, but they are
   * applied to the whole list. When the filter keeps every block (as with
   * the empty term) the two agree: the block the user dragged lands at the
   * place the user dropped it.
   */
  lemma DragAgreesWhenFilterKeepsAll(s: seq<NoteBlock>, term: string, from: nat, to: nat)
    requires from < |Filter(s, term)| && to < |Filter(s, term)|
    requires forall i :: 0 <= i < |s| ==> Matches(s[i], term)
    ensures Renumbered(Moved(s, from, to))[to].id == Filter(s, term)[from].id
  {
    FilterKeepsAll(s, term);
    MovedAt(s, from, to);
  }

  /**
   * With a term that hides the first block, dragging the first visible block
   * moves the hidden one instead.
   */
  lemma DragMovesWrongBlockUnderFilter()
    ensures var a, b, c := NoteBlock("1", "x", "", false, Some(0), []),
                         NoteBlock("2", "y", "", false, Some(1), []),
                         NoteBlock("3", "y", "", false, Some(2), []);
            Filter([a, b, c], "y") == [b, c] &&
            Renumbered(Moved([a, b, c], 0, 1))[1].id == "1" &&
            Filter([a, b, c], "y")[0].id == "2"
  {
    var a, b, c := NoteBlock("1", "x", "", false, Some(0), []),
                   NoteBlock("2", "y", "", false, Some(1), []),
                   NoteBlock("3", "y", "", false, Some(2), []);
    assert Lower("y") == "y" && Lower("x") == "x" && Lower("") == "";
    assert !Includes("", "y");
    assert !Includes("x", "y") by {
      assert "x"[..1] == "x";
      assert !StartsWith("x", "y");
      assert "x"[1..] == "";
    }
    assert Includes("y", "y") by {
      assert StartsWith("y", "y");
    }
    assert Filter([c], "y") == [c];
    assert [a, b, c][1..] == [b, c] && [b, c][1..] == [c];
    assert Filter([b, c], "y") == [b, c];
    assert Filter([a, b, c], "y") == [b, c];
  }

  /** A reorder keeps ids unique. */
  lemma ReorderKeepsUnique(s: seq<NoteBlock>, from: nat, to: nat)
    requires from < |s| && to < |s| && UniqueIds(s)
    ensures UniqueIds(Renumbered(Moved(s, from, to)))
  {
    var m := Moved(s, from, to);
    MovedAt(s, from, to);
    // position k of m came from position Src(k) of s, and Src is one-to-one
    forall i, j | 0 <= i < j < |m| ensures m[i].id != m[j].id {
      var si := Source(from, to, i);
      var sj := Source(from, to, j);
      assert m[i] == s[si] && m[j] == s[sj];
      assert si != sj;
    }
  }

  /** The old position of the block at position k after moving from `from` to `to`. */
  function Source(from: nat, to: nat, k: nat): nat {
    if k == to then from
    else if from < to && from <= k < to then k + 1
    else if to < from && to < k <= from then k - 1
    else k
  }

  // ---------------------------------------------------------------------------
  // The store

  class Store {
    /** `blocks`: the list every handler replaces. */
    var blocks: seq<NoteBlock>
    /** `searchTerm`: the text of the search box. */
    var searchTerm: string

    constructor()
      ensures blocks == [] && searchTerm == ""
    {
      blocks := [];
      searchTerm := "";
    }

    /** `filteredBlocks`: what the list shows and what the drag indices refer to. */
    function FilteredBlocks(): seq<NoteBlock>
      reads this
    {
      Filter(blocks, searchTerm)
    }

    method SetSearchTerm(term: string)
      modifies this
      ensures searchTerm == term && blocks == old(blocks)
    {
      searchTerm := term;
    }

    /** `loadNotes`: the loaded records replace the list; on a rejection the list stays. */
    method LoadNotes(reply: Reply<seq<NoteFile.NoteRecord>>)
      modifies this
      ensures blocks == if reply.Resolved? then FromRecords(reply.value) else old(blocks)
      ensures searchTerm == old(searchTerm)
    {
      if reply.Resolved? {
        blocks := FromRecords(reply.value);
      }
    }

    /**
     * `addNewBlock`: the new block is appended and then saved; a failed save
     * is swallowed, so the block stays whatever `saveReply` is.
     */
    method AddNewBlock(id: string, saveReply: Reply<()>) returns (sent: Command)
      requires id !in Ids(blocks)
      modifies this
      ensures blocks == old(blocks) + [NewBlock(id, |old(blocks)|)]
      ensures sent == SaveBlock(NewBlock(id, |old(blocks)|))
      ensures UniqueIds(old(blocks)) ==> UniqueIds(blocks)
      ensures OrdersArePositions(old(blocks)) ==> OrdersArePositions(blocks)
      ensures searchTerm == old(searchTerm)
    {
      var newBlock := NewBlock(id, |blocks|);
      if UniqueIds(blocks) {
        AppendKeepsUnique(blocks, id);
      }
      blocks := blocks + [newBlock];
      sent := SaveBlock(newBlock);
    }

    /**
     * The three field handlers: the list is edited first, then the first
     * block with the id (if any) is saved; a failed save is swallowed.
     */
    method EditBlock(id: string, e: Edit, saveReply: Reply<()>) returns (sent: Option<Command>)
      modifies this
      ensures blocks == EditWhere(old(blocks), id, e)
      ensures UniqueIds(old(blocks)) ==> UniqueIds(blocks)
      ensures sent.None? <==> id !in Ids(old(blocks))
      ensures sent == match FindById(old(blocks), id)
                      case None => None
                      case Some(b) => Some(SaveBlock(ApplyEdit(b, e)))
      ensures searchTerm == old(searchTerm)
    {
      FindByIdFirst(blocks, id);
      FindEdited(blocks, id, e);
      if UniqueIds(blocks) {
        EditKeepsUnique(blocks, id, e);
      }
      blocks := EditWhere(blocks, id, e);
      var updated := FindById(blocks, id);
      sent := if updated.Some? then Some(SaveBlock(updated.value)) else None;
    }

    /** `updateBlockTitle`. */
    method UpdateBlockTitle(id: string, title: string, saveReply: Reply<()>) returns (sent: Option<Command>)
      modifies this
      ensures blocks == EditWhere(old(blocks), id, SetTitle(title))
      ensures UniqueIds(old(blocks)) ==> UniqueIds(blocks)
      ensures sent.None? <==> id !in Ids(old(blocks))
      ensures sent == match FindById(old(blocks), id)
                      case None => None
                      case Some(b) => Some(SaveBlock(ApplyEdit(b, SetTitle(title))))
      ensures searchTerm == old(searchTerm)
    {
      sent := EditBlock(id, SetTitle(title), saveReply);
    }

    /** `updateBlockContent`. */
    method UpdateBlockContent(id: string, content: string, saveReply: Reply<()>) returns (sent: Option<Command>)
      modifies this
      ensures blocks == EditWhere(old(blocks), id, SetContent(content))
      ensures UniqueIds(old(blocks)) ==> UniqueIds(blocks)
      ensures sent.None? <==> id !in Ids(old(blocks))
      ensures sent == match FindById(old(blocks), id)
                      case None => None
                      case Some(b) => Some(SaveBlock(ApplyEdit(b, SetContent(content))))
      ensures searchTerm == old(searchTerm)
    {
      sent := EditBlock(id, SetContent(content), saveReply);
    }

    /** `toggleCollapse`. */
    method ToggleCollapse(id: string, saveReply: Reply<()>) returns (sent: Option<Command>)
      modifies this
      ensures blocks == EditWhere(old(blocks), id, FlipCollapsed)
      ensures UniqueIds(old(blocks)) ==> UniqueIds(blocks)
      ensures sent.None? <==> id !in Ids(old(blocks))
      ensures sent == match FindById(old(blocks), id)
                      case None => None
                      case Some(b) => Some(SaveBlock(ApplyEdit(b, FlipCollapsed)))
      ensures searchTerm == old(searchTerm)
    {
      sent := EditBlock(id, FlipCollapsed, saveReply);
    }

    /**
     * `deleteBlock`: the backend call comes first, and the list changes only
     * when it resolves.
     */
    method DeleteBlock(id: string, reply: Reply<()>) returns (sent: Command)
      modifies this
      ensures sent == Command.DeleteBlock(id)
      ensures blocks == if reply.Resolved? then Without(old(blocks), id) else old(blocks)
      ensures UniqueIds(old(blocks)) ==> UniqueIds(blocks)
      ensures searchTerm == old(searchTerm)
    {
      sent := Command.DeleteBlock(id);
      if reply.Resolved? {
        if UniqueIds(blocks) {
          WithoutKeepsUnique(blocks, id);
        }
        blocks := Without(blocks, id);
      }
    }

    /**
     * `onDragEnd`: `source` and `destination` are positions in the filtered
     * list, spliced into the whole list, which is then renumbered and its
     * (id, order) pairs sent; a failed call is swallowed.
     */
    method OnDragEnd(source: nat, destination: Option<nat>, reply: Reply<()>) returns (sent: Option<Command>)
      requires source < |FilteredBlocks()|
      requires destination.Some? ==> destination.value < |FilteredBlocks()|
      modifies this
      ensures destination.None? ==> blocks == old(blocks) && sent == None
      ensures destination.Some? ==>
                blocks == Renumbered(Moved(old(blocks), source, destination.value)) &&
                OrdersArePositions(blocks) &&
                sent == Some(UpdateOrders(OrdersOf(blocks)))
      ensures UniqueIds(old(blocks)) ==> UniqueIds(blocks)
      ensures searchTerm == old(searchTerm)
    {
      if destination.None? {
        return None;
      }
      var to := destination.value;
      if UniqueIds(blocks) {
        ReorderKeepsUnique(blocks, source, to);
      }
      var items := blocks;
      var reorderedItem := items[source];
      items := items[..source] + items[source + 1..];
      items := items[..to] + [reorderedItem] + items[to..];
      var updatedItems := Renumbered(items);
      blocks := updatedItems;
      sent := Some(UpdateOrders(OrdersOf(updatedItems)));
    }
  }
}
