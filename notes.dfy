/** The in-memory note store of app.js: the `notes` array with the id of the open note, the
    four operations that change them (app.js:237-276), the import that replaces them
    (app.js:356-362), and the filtered, sorted list view (app.js:193-198). `Date.now()`,
    `uid()` and the answer of `confirm` are parameters. */
module Notes {
  import opened Text

  /** One note, as app.js:5 describes it. */
  datatype Note = Note(id: string, title: string, content: string, pinned: bool, updatedAt: int)

  /** The fields an edit passes to `updateCurrent`: the title box (app.js:283) or the content
      box (app.js:290); a missing field keeps its value. */
  datatype Patch = Patch(title: Option<string>, content: Option<string>)

  /** What `JSON.parse` gave an import: an array of notes, or anything else. */
  datatype Parsed = Notes(items: seq<Note>) | NotAnArray

  // ---------------------------------------------------------------- store functions

  /** `notes.findIndex((n) => n.id === currentId)`: `None` plays `-1`, and a null id
      matches no note. */
  function FindIndex(ns: seq<Note>, cur: Option<string>): (r: Option<nat>)
    ensures r.Some? ==> r.value < |ns| && cur == Some(ns[r.value].id)
                        && forall j :: 0 <= j < r.value ==> cur != Some(ns[j].id)
    ensures r.None? ==> forall j :: 0 <= j < |ns| ==> cur != Some(ns[j].id)
  {
    if ns == [] then None
    else if cur == Some(ns[0].id) then Some(0)
    else match FindIndex(ns[1..], cur)
      case None => None
      case Some(k) => Some(k + 1)
  }

  /** The note `createNote` makes (app.js:238-244). */
  function Fresh(id: string, now: int): Note
  {
    Note(id, "New note", "", false, now)
  }

  /** `{ ...n, ...partial, updatedAt: now }`. */
  function Patched(n: Note, p: Patch, now: int): (m: Note)
    ensures m.id == n.id && m.pinned == n.pinned && m.updatedAt == now
    ensures m.title == (if p.title.Some? then p.title.value else n.title)
    ensures m.content == (if p.content.Some? then p.content.value else n.content)
  {
    n.(title := if p.title.Some? then p.title.value else n.title,
       content := if p.content.Some? then p.content.value else n.content,
       updatedAt := now)
  }

  /** `notes.filter((n) => n.id !== id)`. */
  function Without(ns: seq<Note>, id: string): (r: seq<Note>)
    ensures |r| <= |ns|
    ensures forall n :: n in r <==> n in ns && n.id != id
  {
    if ns == [] then []
    else if ns[0].id == id then Without(ns[1..], id)
    else [ns[0]] + Without(ns[1..], id)
  }

  /** `notes[0]?.id || null`: the empty id is falsy and reads as null. */
  function FirstId(ns: seq<Note>): (r: Option<string>)
    ensures r.Some? <==> ns != [] && ns[0].id != ""
    ensures r.Some? ==> r.value == ns[0].id
  {
    if ns == [] || ns[0].id == "" then None else Some(ns[0].id)
  }

  /** The store. `currentId` is `None` for the source's `null`. */
  class Store {
    var notes: seq<Note>
    var currentId: Option<string>

    /** The state app.js starts in before it loads (app.js:7-8). */
    constructor ()
      ensures notes == [] && currentId == None
    {
      notes := [];
      currentId := None;
    }

    /** app.js:237-250: the new note goes first and becomes the open note. */
    method CreateNote(id: string, now: int)
      modifies this
      ensures notes == [Fresh(id, now)] + old(notes)
      ensures currentId == Some(id)
    {
      notes := [Fresh(id, now)] + notes;
      currentId := Some(id);
    }

    /** app.js:251-257: only the first note with the open id changes; nothing happens when
        none has it. */
    method UpdateCurrent(p: Patch, now: int)
      modifies this
      ensures currentId == old(currentId) && |notes| == |old(notes)|
      ensures FindIndex(old(notes), currentId).None? ==> notes == old(notes)
      ensures FindIndex(old(notes), currentId).Some? ==>
                var i := FindIndex(old(notes), currentId).value;
                notes == old(notes)[i := Patched(old(notes)[i], p, now)]
    {
      match FindIndex(notes, currentId)
      case None =>
      case Some(i) =>
        notes := notes[i := Patched(notes[i], p, now)];
    }

    /** app.js:258-267: a null or empty open id, or a declined confirmation, changes
        nothing; otherwise every note with that id goes and the first remaining note opens. */
    method RemoveCurrent(confirmed: bool)
      modifies this
      ensures old(currentId).None? || old(currentId) == Some("") || !confirmed ==>
                notes == old(notes) && currentId == old(currentId)
      ensures old(currentId).Some? && old(currentId) != Some("") && confirmed ==>
                notes == Without(old(notes), old(currentId).value) && currentId == FirstId(notes)
    {
      if currentId.None? || currentId == Some("") {
        return;
      }
      if !confirmed {
        return;
      }
      notes := Without(notes, currentId.value);
      currentId := FirstId(notes);
    }

    /** app.js:268-276: the first note with the open id flips its pin and takes the new
        time; nothing happens when none has it. */
    method TogglePin(now: int)
      modifies this
      ensures currentId == old(currentId) && |notes| == |old(notes)|
      ensures FindIndex(old(notes), currentId).None? ==> notes == old(notes)
      ensures FindIndex(old(notes), currentId).Some? ==>
                var i := FindIndex(old(notes), currentId).value;
                notes == old(notes)[i := Toggled(old(notes)[i], now)]
    {
      match FindIndex(notes, currentId)
      case None =>
      case Some(i) =>
        notes := notes[i := Toggled(notes[i], now)];
    }

    /** app.js:356-362: an array replaces the notes and opens the first; anything else
        leaves the store as it was. */
    method Import(data: Parsed)
      modifies this
      ensures data.NotAnArray? ==> notes == old(notes) && currentId == old(currentId)
      ensures data.Notes? ==> notes == data.items && currentId == FirstId(data.items)
    {
      if data.Notes? {
        notes := data.items;
        currentId := FirstId(notes);
      }
    }
  }

  /** `n.pinned = !n.pinned; n.updatedAt = now`. */
  function Toggled(n: Note, now: int): (m: Note)
    ensures m.pinned != n.pinned && m.updatedAt == now
    ensures m.id == n.id && m.title == n.title && m.content == n.content
  {
    n.(pinned := !n.pinned, updatedAt := now)
  }

  // ---------------------------------------------------------------- store lemmas

  /** Toggling twice restores the pin and keeps only the last time. */
  lemma ToggleTwice(n: Note, t1: int, t2: int)
    ensures Toggled(Toggled(n, t1), t2) == n.(updatedAt := t2)
  {
  }

  /** Removing keeps the other notes in their order: what is left is the list with the
      removed notes cut out. */
  lemma {:induction false} WithoutKeepsOrder(ns: seq<Note>, id: string)
    ensures IsSubsequence(Without(ns, id), ns)
    ensures forall i :: 0 <= i < |ns| && ns[i].id != id ==> ns[i] in Without(ns, id)
    ensures forall n :: multiset(Without(ns, id))[n] == if n.id == id then 0 else multiset(ns)[n]
    decreases |ns|
  {
    WithoutCounts(ns, id);
    if ns != [] {
      WithoutKeepsOrder(ns[1..], id);
      forall i | 0 <= i < |ns| && ns[i].id != id ensures ns[i] in Without(ns, id) {
        if i > 0 {
          assert ns[i] == ns[1..][i - 1];
        }
      }
    }
  }

  /** Each note with another id is kept as often as it occurs, and those with `id` not at all. */
  lemma {:induction false} WithoutCounts(ns: seq<Note>, id: string)
    ensures forall n :: multiset(Without(ns, id))[n] == if n.id == id then 0 else multiset(ns)[n]
    decreases |ns|
  {
    if ns != [] {
      WithoutCounts(ns[1..], id);
      assert ns == [ns[0]] + ns[1..];
      assert multiset(ns) == multiset([ns[0]]) + multiset(ns[1..]);
    }
  }

  /** `a` is what is left of `b` after dropping some elements. */
  predicate IsSubsequence(a: seq<Note>, b: seq<Note>)
    decreases |b|
  {
    if a == [] then true
    else if b == [] then false
    else if a[0] == b[0] then IsSubsequence(a[1..], b[1..])
    else IsSubsequence(a, b[1..])
  }

  /** A note created with an id no other note has is gone again after it is removed. */
  lemma {:induction false} RemoveUndoesCreate(ns: seq<Note>, id: string, now: int)
    requires forall i :: 0 <= i < |ns| ==> ns[i].id != id
    ensures Without([Fresh(id, now)] + ns, id) == ns
  {
    var s := [Fresh(id, now)] + ns;
    assert s[1..] == ns;
    WithoutNone(ns, id);
  }

  lemma {:induction false} WithoutNone(ns: seq<Note>, id: string)
    requires forall i :: 0 <= i < |ns| ==> ns[i].id != id
    ensures Without(ns, id) == ns
    decreases |ns|
  {
    if ns != [] {
      WithoutNone(ns[1..], id);
      assert [ns[0]] + ns[1..] == ns;
    }
  }

  /** After a removal, no note has the removed id. */
  lemma RemovedIsGone(ns: seq<Note>, id: string)
    ensures forall i :: 0 <= i < |Without(ns, id)| ==> Without(ns, id)[i].id != id
  {
    var r := Without(ns, id);
    forall i | 0 <= i < |r| ensures r[i].id != id {
      assert r[i] in r;
    }
  }

  // ---------------------------------------------------------------- list view

  /** `(els.search?.value || "").trim().toLowerCase()`. */
  function Query(raw: string): string
  {
    Lower(Trim(raw))
  }

  /** The filter of app.js:195-197. */
  predicate Matches(n: Note, q: string)
  {
    q == [] || Contains(Lower(n.title + " " + n.content), q)
  }

  function Filter(ns: seq<Note>, q: string): (r: seq<Note>)
    ensures |r| <= |ns|
  {
    if ns == [] then []
    else if Matches(ns[0], q) then [ns[0]] + Filter(ns[1..], q)
    else Filter(ns[1..], q)
  }

  /** The comparator `b.pinned - a.pinned || b.updatedAt - a.updatedAt` is negative: `a`
      goes first. */
  predicate Before(a: Note, b: Note)
  {
    (a.pinned && !b.pinned) || (a.pinned == b.pinned && a.updatedAt > b.updatedAt)
  }

  /** No note is placed after one that should follow it. */
  predicate Ordered(s: seq<Note>)
  {
    forall i, j :: 0 <= i < j < |s| ==> !Before(s[j], s[i])
  }

  /** Puts `x` after every note of the ordered `s` that goes strictly before it, so that it
      stays in front of the notes it ties with. */
  function Insert(x: Note, s: seq<Note>): seq<Note>
  {
    if s == [] || !Before(s[0], x) then [x] + s else [s[0]] + Insert(x, s[1..])
  }

  /** `Array.prototype.sort` with that comparator, which is stable. */
  function Sort(s: seq<Note>): seq<Note>
  {
    if s == [] then [] else Insert(s[0], Sort(s[1..]))
  }

  /** The notes the list shows, in the order it shows them. */
  function ListView(ns: seq<Note>, raw: string): seq<Note>
  {
    Sort(Filter(ns, Query(raw)))
  }

  /** A note stays in the view exactly when it is a note of the store that matches the query,
      as often as the store holds it, and an empty query keeps every note. */
  lemma {:induction false} FilterKeeps(ns: seq<Note>, q: string)
    ensures forall n :: n in Filter(ns, q) <==> n in ns && Matches(n, q)
    ensures q == [] ==> Filter(ns, q) == ns
    ensures forall n :: multiset(Filter(ns, q))[n] == if Matches(n, q) then multiset(ns)[n] else 0
    decreases |ns|
  {
    if ns != [] {
      FilterKeeps(ns[1..], q);
      assert ns == [ns[0]] + ns[1..];
      assert multiset(ns) == multiset([ns[0]]) + multiset(ns[1..]);
    }
  }

  lemma BlankQueryKeepsAll(ns: seq<Note>, raw: string)
    requires AllSpace(raw)
    ensures Filter(ns, Query(raw)) == ns
  {
    assert Trim(raw) == [];
    FilterKeeps(ns, Query(raw));
  }

  /** `Before` is a strict weak order: irreflexive, and transitive together with its
      incomparability relation (two notes tie exactly when neither goes first). */
  lemma BeforeIsStrict(a: Note, b: Note, c: Note)
    ensures !Before(a, a)
    ensures Before(a, b) ==> !Before(b, a)
    ensures Before(a, b) && Before(b, c) ==> Before(a, c)
    ensures !Before(a, b) && !Before(b, c) ==> !Before(a, c)
  {
  }

  /** A note that no note of the ordered `r` goes before can be put in front of it. */
  lemma OrderedCons(a: Note, r: seq<Note>)
    requires Ordered(r) && forall k :: 0 <= k < |r| ==> !Before(r[k], a)
    ensures Ordered([a] + r)
  {
    var t := [a] + r;
    forall i, j | 0 <= i < j < |t| ensures !Before(t[j], t[i]) {
      assert t[j] == r[j - 1];
      if i > 0 {
        assert t[i] == r[i - 1];
      }
    }
  }

  /** Inserting keeps a lower bound that `x` and every note of `s` respect. */
  lemma {:induction false} InsertBelow(x: Note, s: seq<Note>, b: Note)
    requires !Before(x, b) && forall k :: 0 <= k < |s| ==> !Before(s[k], b)
    ensures forall k :: 0 <= k < |Insert(x, s)| ==> !Before(Insert(x, s)[k], b)
    decreases |s|
  {
    if s != [] && Before(s[0], x) {
      InsertBelow(x, s[1..], b);
      var r := Insert(x, s[1..]);
      var t := [s[0]] + r;
      assert Insert(x, s) == t;
      forall k | 0 < k < |t| ensures !Before(t[k], b) {
        assert t[k] == r[k - 1];
      }
    } else {
      var t := [x] + s;
      forall k | 0 < k < |t| ensures !Before(t[k], b) {
        assert t[k] == s[k - 1];
      }
    }
  }

  lemma {:induction false} InsertOrdered(x: Note, s: seq<Note>)
    requires Ordered(s)
    ensures Ordered(Insert(x, s))
    decreases |s|
  {
    if s != [] && Before(s[0], x) {
      var tail := s[1..];
      assert Ordered(tail) by {
        forall i, j | 0 <= i < j < |tail| ensures !Before(tail[j], tail[i]) {
          assert tail[j] == s[j + 1] && tail[i] == s[i + 1];
        }
      }
      InsertOrdered(x, tail);
      forall k | 0 <= k < |tail| ensures !Before(tail[k], s[0]) {
        assert tail[k] == s[k + 1];
      }
      InsertBelow(x, tail, s[0]);
      OrderedCons(s[0], Insert(x, tail));
    } else {
      forall k | 0 <= k < |s| ensures !Before(s[k], x) {
        if k > 0 {
          assert !Before(s[k], s[0]);
          BeforeIsStrict(s[k], s[0], x);
        }
      }
      OrderedCons(x, s);
    }
  }

  lemma {:induction false} InsertPerm(x: Note, s: seq<Note>)
    ensures multiset(Insert(x, s)) == multiset([x] + s)
    decreases |s|
  {
    if s != [] && Before(s[0], x) {
      InsertPerm(x, s[1..]);
      assert s == [s[0]] + s[1..];
      assert multiset([x] + s) == multiset([s[0]]) + multiset([x] + s[1..]);
    }
  }

  /** Inserting into an ordered list keeps it ordered and only adds `x`. */
  lemma InsertKeeps(x: Note, s: seq<Note>)
    requires Ordered(s)
    ensures Ordered(Insert(x, s)) && multiset(Insert(x, s)) == multiset([x] + s)
  {
    InsertOrdered(x, s);
    InsertPerm(x, s);
  }

  /** The sort orders the notes and only reorders them. */
  lemma {:induction false} SortSpec(s: seq<Note>)
    ensures Ordered(Sort(s)) && multiset(Sort(s)) == multiset(s)
    decreases |s|
  {
    if s != [] {
      SortSpec(s[1..]);
      InsertKeeps(s[0], Sort(s[1..]));
      assert s == [s[0]] + s[1..];
    }
  }

  /** In an ordered list every pinned note comes before every unpinned one, and among notes
      with the same pin the more recently updated ones come first. */
  lemma PinnedFirst(s: seq<Note>, i: int, j: int)
    requires Ordered(s) && 0 <= i < j < |s|
    ensures s[j].pinned ==> s[i].pinned
    ensures s[i].pinned == s[j].pinned ==> s[i].updatedAt >= s[j].updatedAt
  {
  }

  /** The list view shows exactly the matching notes, each as often as the store holds it,
      pinned first and then the most recently updated first. */
  lemma ListViewSpec(ns: seq<Note>, raw: string)
    ensures multiset(ListView(ns, raw)) == multiset(Filter(ns, Query(raw)))
    ensures Ordered(ListView(ns, raw))
    ensures forall n :: n in ListView(ns, raw) <==> n in ns && Matches(n, Query(raw))
    ensures forall n :: multiset(ListView(ns, raw))[n] == if Matches(n, Query(raw)) then multiset(ns)[n] else 0
  {
    var f := Filter(ns, Query(raw));
    SortSpec(f);
    FilterKeeps(ns, Query(raw));
    forall n ensures n in ListView(ns, raw) <==> n in f {
      assert n in ListView(ns, raw) <==> n in multiset(ListView(ns, raw));
      assert n in f <==> n in multiset(f);
    }
  }
}
