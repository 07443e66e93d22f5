/** `updateWatches` (wl.js:71-90) and the `watches` object it edits in
    place: a dictionary from imported file path to the `fs.watch` handle
    installed for it. The root input file is watched on its own
    (wl.js:196) and is not an entry here. */
module Watches {
  import opened Seqs

  /** A watch handle. Every call to `watch` creates a new one; the id tells
      handles apart, and the path is the file it watches. */
  datatype Handle = Handle(id: nat, path: string)

  /** The paths of `keys`, in order, whose membership in `imports` is
      `present`: with `false` the entries `updateWatches` closes and deletes,
      with `true` the ones it keeps. */
  function Select(keys: seq<string>, imports: seq<string>, present: bool): seq<string> {
    if keys == [] then []
    else
      var p := keys[|keys| - 1];
      Select(keys[..|keys| - 1], imports, present) + (if (p in imports) == present then [p] else [])
  }

  /** The paths of `imports`, in order of first occurrence, that are not in
      `known`: the entries `updateWatches` installs. */
  function Fresh(imports: seq<string>, known: set<string>): seq<string> {
    if imports == [] then []
    else
      var earlier := Fresh(imports[..|imports| - 1], known);
      var p := imports[|imports| - 1];
      if p in known || p in earlier then earlier else earlier + [p]
  }

  lemma {:induction false} SelectMembers(keys: seq<string>, imports: seq<string>, present: bool, p: string)
    ensures p in Select(keys, imports, present) <==> p in keys && (p in imports) == present
  {
    if keys != [] {
      var init := keys[..|keys| - 1];
      SelectMembers(init, imports, present, p);
      assert keys == init + [keys[|keys| - 1]];
    }
  }

  lemma {:induction false} SelectDistinct(keys: seq<string>, imports: seq<string>, present: bool)
    requires Distinct(keys)
    ensures Distinct(Select(keys, imports, present))
  {
    if keys != [] {
      var init := keys[..|keys| - 1];
      var p := keys[|keys| - 1];
      SelectDistinct(init, imports, present);
      SelectMembers(init, imports, present, p);
      assert p !in init;
    }
  }

  lemma {:induction false} FreshMembers(imports: seq<string>, known: set<string>, p: string)
    ensures p in Fresh(imports, known) <==> p in imports && p !in known
  {
    if imports != [] {
      var init := imports[..|imports| - 1];
      FreshMembers(init, known, p);
      assert imports == init + [imports[|imports| - 1]];
    }
  }

  lemma {:induction false} FreshDistinct(imports: seq<string>, known: set<string>)
    ensures Distinct(Fresh(imports, known))
  {
    if imports != [] {
      FreshDistinct(imports[..|imports| - 1], known);
    }
  }

  /** Membership in the three lists one reconciliation computes. */
  lemma ReconcileMembers(keys: seq<string>, imports: seq<string>, known: set<string>, p: string)
    ensures p in Select(keys, imports, true) <==> p in keys && p in imports
    ensures p in Select(keys, imports, false) <==> p in keys && p !in imports
    ensures p in Fresh(imports, known) <==> p in imports && p !in known
  {
    SelectMembers(keys, imports, true, p);
    SelectMembers(keys, imports, false, p);
    FreshMembers(imports, known, p);
  }

  /** What one reconciliation achieves on distinct keys: the new keys are
      exactly the imported paths, without repeats; the removed paths are
      exactly the old keys no longer imported and the added paths exactly the
      imported paths not yet watched, neither list repeating a path even when
      `imports` does; a path both watched and imported is in neither. */
  lemma {:induction false} ReconcileExact(keys: seq<string>, imports: seq<string>)
    requires Distinct(keys)
    ensures var removed, added := Select(keys, imports, false), Fresh(imports, Elems(keys));
            var now := Select(keys, imports, true) + added;
            && Distinct(removed) && Elems(removed) == Elems(keys) - Elems(imports)
            && Distinct(added) && Elems(added) == Elems(imports) - Elems(keys)
            && Distinct(now) && Elems(now) == Elems(imports)
            && (forall p :: p in keys && p in imports ==> p !in removed && p !in added)
  {
    var kept, removed, added := Select(keys, imports, true), Select(keys, imports, false), Fresh(imports, Elems(keys));
    SelectDistinct(keys, imports, true);
    SelectDistinct(keys, imports, false);
    FreshDistinct(imports, Elems(keys));
    forall p
      ensures p in kept <==> p in keys && p in imports
      ensures p in removed <==> p in keys && p !in imports
      ensures p in added <==> p in imports && p !in Elems(keys)
    {
      ReconcileMembers(keys, imports, Elems(keys), p);
    }
    DistinctAppend(kept, added);
  }

  /** Reconciling twice with the same imports changes nothing the second
      time: nothing is removed, nothing added, and the order stays. */
  lemma {:induction false} ReconcileIdempotent(keys: seq<string>, imports: seq<string>)
    requires Distinct(keys)
    ensures var now := Select(keys, imports, true) + Fresh(imports, Elems(keys));
            && Select(now, imports, false) == []
            && Fresh(imports, Elems(now)) == []
            && Select(now, imports, true) == now
  {
    var now := Select(keys, imports, true) + Fresh(imports, Elems(keys));
    ReconcileExact(keys, imports);
    forall p | p in now ensures p in imports {
      assert p in Elems(now);
    }
    SelectAll(now, imports);
    FreshNone(imports, Elems(now));
  }

  lemma {:induction false} SelectAll(keys: seq<string>, imports: seq<string>)
    requires forall p :: p in keys ==> p in imports
    ensures Select(keys, imports, true) == keys && Select(keys, imports, false) == []
  {
    if keys != [] {
      var init := keys[..|keys| - 1];
      SelectAll(init, imports);
      assert keys == init + [keys[|keys| - 1]];
    }
  }

  lemma {:induction false} FreshNone(imports: seq<string>, known: set<string>)
    requires forall p :: p in imports ==> p in known
    ensures Fresh(imports, known) == []
  {
    if imports != [] {
      FreshNone(imports[..|imports| - 1], known);
    }
  }

  lemma DistinctAppend(a: seq<string>, b: seq<string>)
    requires Distinct(a) && Distinct(b)
    requires forall p :: p in a ==> p !in b
    ensures Distinct(a + b)
  {
    forall i, j | 0 <= i < j < |a + b| ensures (a + b)[i] != (a + b)[j] {
      if i < |a| && j >= |a| {
        assert (a + b)[i] in a && (a + b)[j] in b;
      }
    }
  }

  /** The invariant of the watch table, on its four parts: no path is a key
      twice, every key maps to a handle for that very path, ids below `nextId`
      have been handed out, and no live handle has been closed. */
  ghost predicate TableInvariant(order: seq<string>, handles: map<string, Handle>, nextId: nat, closed: seq<Handle>) {
    && Distinct(order)
    && (forall p :: p in handles <==> p in order)
    && (forall p :: p in handles ==> handles[p].path == p && handles[p].id < nextId && handles[p] !in closed)
    && (forall k :: 0 <= k < |closed| ==> closed[k].id < nextId)
  }

  /** `Fresh` only looks at `known` for paths that are imported. */
  lemma {:induction false} FreshKnownOnImports(imports: seq<string>, k1: set<string>, k2: set<string>)
    requires forall p :: p in imports ==> (p in k1 <==> p in k2)
    ensures Fresh(imports, k1) == Fresh(imports, k2)
  {
    if imports != [] {
      FreshKnownOnImports(imports[..|imports| - 1], k1, k2);
    }
  }

  /** The handles of `paths` in `m`, in the order of `paths`. */
  function HandlesFor(paths: seq<string>, m: map<string, Handle>): seq<Handle>
    requires forall p :: p in paths ==> p in m
  {
    if paths == [] then []
    else HandlesFor(paths[..|paths| - 1], m) + [m[paths[|paths| - 1]]]
  }

  lemma {:induction false} HandlesForMembers(paths: seq<string>, m: map<string, Handle>, h: Handle)
    requires forall p :: p in paths ==> p in m
    ensures h in HandlesFor(paths, m) <==> exists p :: p in paths && m[p] == h
  {
    if paths != [] {
      var init := paths[..|paths| - 1];
      HandlesForMembers(init, m, h);
      assert paths == init + [paths[|paths| - 1]];
    }
  }

  /** Each removed entry's handle is closed once: the handles closed by one
      reconciliation are pairwise different, because the removed paths are. */
  lemma {:induction false} HandlesForDistinct(paths: seq<string>, m: map<string, Handle>)
    requires forall p :: p in paths ==> p in m
    requires Distinct(paths) && forall p :: p in m ==> m[p].path == p
    ensures Distinct(HandlesFor(paths, m))
  {
    if paths != [] {
      var init := paths[..|paths| - 1];
      var last := paths[|paths| - 1];
      HandlesForDistinct(init, m);
      HandlesForMembers(init, m, m[last]);
      assert last !in init;
    }
  }

  /** The state of the `for...in` loop of `updateWatches` after it has
      visited the first `i` keys: `h` and `c` are the table and the closed
      log, `h0` and `c0` what they were before the loop. */
  ghost predicate Closing(keys: seq<string>, i: int, imports: seq<string>,
                          h0: map<string, Handle>, c0: seq<Handle>,
                          kept: seq<string>, removed: seq<string>,
                          h: map<string, Handle>, c: seq<Handle>)
  {
    && 0 <= i <= |keys|
    && kept == Select(keys[..i], imports, true)
    && removed == Select(keys[..i], imports, false)
    && (forall p :: p in removed ==> p in h0)
    && h == h0 - Elems(removed)
    && c == c0 + HandlesFor(removed, h0)
  }

  /** Extending the visited prefix by one key extends exactly one of the
      two selections by that key. */
  lemma SelectStep(keys: seq<string>, i: nat, imports: seq<string>, present: bool)
    requires i < |keys|
    ensures Select(keys[..i + 1], imports, present) ==
              Select(keys[..i], imports, present) + (if (keys[i] in imports) == present then [keys[i]] else [])
  {
    assert keys[..i + 1][..i] == keys[..i];
  }

  lemma HandlesForStep(paths: seq<string>, p: string, m: map<string, Handle>)
    requires forall q :: q in paths ==> q in m
    requires p in m
    ensures HandlesFor(paths + [p], m) == HandlesFor(paths, m) + [m[p]]
  {
    assert (paths + [p])[..|paths|] == paths;
  }

  /** One turn of the loop on an imported key: it is kept. */
  lemma KeepStep(keys: seq<string>, i: int, imports: seq<string>,
                 h0: map<string, Handle>, c0: seq<Handle>,
                 kept: seq<string>, removed: seq<string>,
                 h: map<string, Handle>, c: seq<Handle>)
    requires Closing(keys, i, imports, h0, c0, kept, removed, h, c) && i < |keys|
    requires keys[i] in imports
    ensures Closing(keys, i + 1, imports, h0, c0, kept + [keys[i]], removed, h, c)
  {
    SelectStep(keys, i, imports, true);
    SelectStep(keys, i, imports, false);
  }

  /** One turn of the loop on a key no longer imported: it is still in the
      table, and has its handle closed and its entry deleted. */
  lemma DropStep(keys: seq<string>, i: int, imports: seq<string>,
                 h0: map<string, Handle>, c0: seq<Handle>,
                 kept: seq<string>, removed: seq<string>,
                 h: map<string, Handle>, c: seq<Handle>)
    requires Closing(keys, i, imports, h0, c0, kept, removed, h, c) && i < |keys|
    requires Distinct(keys) && keys[i] in h0
    requires keys[i] !in imports
    ensures keys[i] in h
    ensures Closing(keys, i + 1, imports, h0, c0, kept, removed + [keys[i]], h - {keys[i]}, c + [h[keys[i]]])
  {
    var f := keys[i];
    var removed' := removed + [f];
    assert f !in removed by {
      SelectMembers(keys[..i], imports, false, f);
      DistinctNotBefore(keys, i);
    }
    assert Select(keys[..i + 1], imports, false) == removed' by {
      SelectStep(keys, i, imports, false);
    }
    assert Select(keys[..i + 1], imports, true) == kept by {
      SelectStep(keys, i, imports, true);
    }
    assert c + [h[f]] == c0 + HandlesFor(removed', h0) by {
      HandlesForStep(removed, f, h0);
    }
    assert h - {f} == h0 - Elems(removed') by {
      ElemsAppend(removed, f);
      MapDrop(h0, Elems(removed), f);
    }
  }

  lemma MapDrop(m: map<string, Handle>, r: set<string>, f: string)
    ensures (m - r) - {f} == m - (r + {f})
  {
  }

  /** The table the `for...in` loop of `updateWatches` leaves behind: the
      invariant holds again, with the removed entries' handles now among the
      closed ones. */
  lemma ClosedTable(keys: seq<string>, imports: seq<string>,
                    h0: map<string, Handle>, nextId: nat, c0: seq<Handle>,
                    kept: seq<string>, removed: seq<string>,
                    h1: map<string, Handle>, c1: seq<Handle>)
    requires TableInvariant(keys, h0, nextId, c0)
    requires Closing(keys, |keys|, imports, h0, c0, kept, removed, h1, c1)
    ensures kept == Select(keys, imports, true) && removed == Select(keys, imports, false)
    ensures TableInvariant(kept, h1, nextId, c1)
    ensures forall p :: p in h1 <==> p in h0 && p in imports
    ensures forall p :: p in h1 ==> h1[p] == h0[p]
    ensures forall p :: p in removed ==> p in h0
    ensures c1 == c0 + HandlesFor(removed, h0)
  {
    assert keys[..|keys|] == keys;
    forall p
      ensures p in kept <==> p in keys && p in imports
      ensures p in removed <==> p in keys && p !in imports
    {
      ReconcileMembers(keys, imports, {}, p);
    }
    SelectDistinct(keys, imports, true);
    forall h | h in HandlesFor(removed, h0) ensures h.id < nextId && h.path in removed && h == h0[h.path] {
      HandlesForMembers(removed, h0, h);
    }
  }

  /** The state of the `forEach` of `updateWatches` after it has visited
      the first `j` imports: `h` and `n` are the table and the next handle
      id, `h0` and `n0` what they were before the loop. */
  ghost predicate Watching(imports: seq<string>, j: int, h0: map<string, Handle>, n0: nat,
                           added: seq<string>, h: map<string, Handle>, n: nat)
  {
    && 0 <= j <= |imports|
    && added == Fresh(imports[..j], h0.Keys)
    && (forall p :: p in h <==> p in h0 || p in added)
    && (forall p :: p in h0 ==> h[p] == h0[p])
    && (forall k :: 0 <= k < |added| ==> added[k] in h && h[added[k]] == Handle(n0 + k, added[k]))
    && n == n0 + |added|
  }

  /** One turn of the `forEach` on a path already in the table: nothing
      changes. */
  lemma SkipStep(imports: seq<string>, j: int, h0: map<string, Handle>, n0: nat,
                 added: seq<string>, h: map<string, Handle>, n: nat)
    requires Watching(imports, j, h0, n0, added, h, n) && j < |imports|
    requires imports[j] in h
    ensures Watching(imports, j + 1, h0, n0, added, h, n)
  {
    assert imports[..j + 1][..j] == imports[..j];
    FreshMembers(imports[..j], h0.Keys, imports[j]);
  }

  /** One turn of the `forEach` on a path not yet in the table: it gets the
      next handle. */
  lemma AddStep(imports: seq<string>, j: int, h0: map<string, Handle>, n0: nat,
                added: seq<string>, h: map<string, Handle>, n: nat)
    requires Watching(imports, j, h0, n0, added, h, n) && j < |imports|
    requires imports[j] !in h
    ensures Watching(imports, j + 1, h0, n0, added + [imports[j]], h[imports[j] := Handle(n, imports[j])], n + 1)
  {
    var f := imports[j];
    assert imports[..j + 1][..j] == imports[..j];
    FreshMembers(imports[..j], h0.Keys, f);
    var added', h' := added + [f], h[f := Handle(n, f)];
    forall k | 0 <= k < |added'| ensures added'[k] in h' && h'[added'[k]] == Handle(n0 + k, added'[k]) {
      if k < |added| {
        assert added'[k] == added[k] && added[k] != f;
      }
    }
  }

  /** The table the `forEach` of `updateWatches` leaves behind: the
      invariant holds again, with the fresh imports appended to the key
      order. */
  lemma WatchedTable(imports: seq<string>, order0: seq<string>, h0: map<string, Handle>, n0: nat,
                     c0: seq<Handle>, added: seq<string>, h: map<string, Handle>, n: nat)
    requires TableInvariant(order0, h0, n0, c0)
    requires Watching(imports, |imports|, h0, n0, added, h, n)
    ensures added == Fresh(imports, h0.Keys)
    ensures TableInvariant(order0 + added, h, n, c0)
    ensures forall p :: p in h <==> p in h0 || p in imports
  {
    assert imports[..|imports|] == imports;
    forall p ensures p in added <==> p in imports && p !in h0 {
      FreshMembers(imports, h0.Keys, p);
    }
    FreshDistinct(imports, h0.Keys);
    DistinctAppend(order0, added);
    forall p | p in h ensures h[p].path == p && h[p].id < n && h[p] !in c0 {
      if p !in h0 {
        var k :| 0 <= k < |added| && added[k] == p;
        assert h[p] == Handle(n0 + k, p);
      }
    }
  }

  /** The `watches` object together with the watch bookkeeping of the
      process: the handles created so far and every `close()` call made. */
  class WatchTable {
    var order: seq<string>              // the keys of `watches`, in insertion order (the order `for...in` visits)
    var handles: map<string, Handle>    // `watches`
    var nextId: nat                     // the id the next `watch` call hands out
    ghost var closed: seq<Handle>       // every handle closed so far, in the order closed

    ghost predicate Valid()
      reads this
    {
      TableInvariant(order, handles, nextId, closed)
    }

    /** `var watches = {}`. */
    constructor ()
      ensures Valid()
      ensures order == [] && handles == map[] && nextId == 0 && closed == []
    {
      order, handles, nextId, closed := [], map[], 0, [];
    }

    /** `watch(file, onchange)`: installs a watch on `path` and returns its
        new handle. */
    method Watch(path: string) returns (h: Handle)
      modifies this`nextId
      ensures h == Handle(old(nextId), path) && nextId == old(nextId) + 1
    {
      h := Handle(nextId, path);
      nextId := nextId + 1;
    }

    /** `updateWatches(watches, imports)`: closes and deletes the entries no
        longer imported, in key order, then installs a watch for each imported
        path not yet present, in import order. */
    method UpdateWatches(imports: seq<string>) returns (added: seq<string>, removed: seq<string>)
      requires Valid()
      modifies this
      ensures Valid()
      ensures removed == Select(old(order), imports, false)
      ensures added == Fresh(imports, old(handles).Keys)
      ensures order == Select(old(order), imports, true) + added
      ensures handles.Keys == Elems(imports)
      ensures forall p :: p in old(handles) && p in imports ==> handles[p] == old(handles)[p]
      ensures forall k :: 0 <= k < |added| ==> handles[added[k]] == Handle(old(nextId) + k, added[k])
      ensures nextId == old(nextId) + |added|
      ensures forall p :: p in removed ==> p in old(handles)
      ensures closed == old(closed) + HandlesFor(removed, old(handles))
    {
      removed := CloseUnimported(imports);
      ghost var kept := handles.Keys;
      added := WatchImported(imports);
      FreshKnownOnImports(imports, kept, old(handles).Keys);
    }

    /** The `for...in` loop of `updateWatches` (wl.js:74-80): every key not
        in `imports` has its handle closed and its entry deleted. */
    method CloseUnimported(imports: seq<string>) returns (removed: seq<string>)
      requires Valid()
      modifies this`order, this`handles, this`closed
      ensures Valid()
      ensures removed == Select(old(order), imports, false)
      ensures order == Select(old(order), imports, true)
      ensures forall p :: p in handles <==> p in old(handles) && p in imports
      ensures forall p :: p in handles ==> handles[p] == old(handles)[p]
      ensures nextId == old(nextId)
      ensures forall p :: p in removed ==> p in old(handles)
      ensures closed == old(closed) + HandlesFor(removed, old(handles))
    {
      var keys := order;
      ghost var h0, n0, c0 := handles, nextId, closed;
      assert TableInvariant(keys, h0, n0, c0);
      var kept: seq<string> := [];
      removed := [];
      var i := 0;
      while i < |keys|
        invariant Closing(keys, i, imports, h0, c0, kept, removed, handles, closed)
        invariant order == keys
      {
        var file := keys[i];
        if IndexOf(imports, file) == -1 {
          DropStep(keys, i, imports, h0, c0, kept, removed, handles, closed);
          closed := closed + [handles[file]];
          handles := handles - {file};
          removed := removed + [file];
        } else {
          KeepStep(keys, i, imports, h0, c0, kept, removed, handles, closed);
          kept := kept + [file];
        }
        i := i + 1;
      }
      ClosedTable(keys, imports, h0, n0, c0, kept, removed, handles, closed);
      order := kept;
      assert keys == old(order) && h0 == old(handles) && c0 == old(closed);
    }

    /** The `forEach` of `updateWatches` (wl.js:82-87): every imported path
        not yet a key gets a new watch, once, even if `imports` repeats it. */
    method WatchImported(imports: seq<string>) returns (added: seq<string>)
      requires Valid()
      modifies this
      ensures Valid()
      ensures added == Fresh(imports, old(handles).Keys)
      ensures order == old(order) + added
      ensures forall p :: p in handles <==> p in old(handles) || p in imports
      ensures forall p :: p in old(handles) ==> handles[p] == old(handles)[p]
      ensures forall k :: 0 <= k < |added| ==> handles[added[k]] == Handle(old(nextId) + k, added[k])
      ensures nextId == old(nextId) + |added|
      ensures closed == old(closed)
    {
      ghost var order0, h0, n0, c0 := order, handles, nextId, closed;
      added := [];
      var j := 0;
      while j < |imports|
        invariant Watching(imports, j, h0, n0, added, handles, nextId)
        invariant order == order0 + added && closed == c0
      {
        var file := imports[j];
        if !(file in handles) {
          AddStep(imports, j, h0, n0, added, handles, nextId);
          var h := Watch(file);
          handles := handles[file := h];
          order := order + [file];
          added := added + [file];
        } else {
          SkipStep(imports, j, h0, n0, added, handles, nextId);
        }
        j := j + 1;
      }
      WatchedTable(imports, order0, h0, n0, c0, added, handles, nextId);
      assert order0 == old(order) && h0 == old(handles) && n0 == old(nextId) && c0 == old(closed);
    }
  }
}
