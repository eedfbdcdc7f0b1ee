/**
 * `recursive_deletion` of utils.c: a post-order walk that unlinks every
 * file of a directory tree and removes each directory once its entries
 * have been handled.
 *
 * The filesystem is a value: a directory is the sequence of its entries in
 * the order `readdir` returns them, `.` and `..` included. Which `unlink`
 * and `rmdir` calls the operating system refuses is an oracle: the set
 * `fails` of paths on which they fail. A `rmdir` also fails on a directory
 * that still holds entries other than `.` and `..`.
 */
module Deletion {
  import opened Prelude

  datatype Node = File | Dir(entries: seq<Entry>)
  datatype Entry = Entry(name: string, node: Node)

  /** One observable step of the walk. */
  datatype Step =
    | OpenFailed(path: string)           // `opendir` refused: "Cannot open directory"
    | ReadFailed(path: string)           // the first `readdir` found nothing
    | Unlinked(path: string, ok: bool)   // `unlink` of a non-directory
    | RemovedDir(path: string, ok: bool) // the final `rmdir`

  /** What one call leaves behind: the steps taken and what remains of the
      node (None once it is removed). */
  datatype Outcome = Outcome(log: seq<Step>, remains: Option<Node>)

  /** The entry loop's result: its steps, the entries still present, and
      whether a failed `unlink` ended the loop early. */
  datatype Sweep = Sweep(log: seq<Step>, left: seq<Entry>, aborted: bool)

  /** The path `snprintf` builds for an entry: "<path>/<name>". */
  function ChildPath(path: string, name: string): (p: string)
    ensures |p| > |path| && p[..|path| + 1] == path + "/"
  {
    path + "/" + name
  }

  predicate IsDot(name: string) {
    name == "." || name == ".."
  }

  /** The entries the loop descends into: directories other than `.` and `..`. */
  predicate Descends(e: Entry) {
    e.node.Dir? && !IsDot(e.name)
  }

  /** An entry `rmdir` does not count against emptiness. */
  predicate DotDir(e: Entry) {
    e.node.Dir? && IsDot(e.name)
  }

  /** `rmdir` succeeds: the directory holds nothing but `.` and `..` and the
      system does not refuse it. */
  predicate RmdirSucceeds(path: string, left: seq<Entry>, fails: set<string>) {
    path !in fails && forall e :: e in left ==> DotDir(e)
  }

  function Join(a: Sweep, b: Sweep): Sweep {
    Sweep(a.log + b.log, a.left + b.left, b.aborted)
  }

  lemma JoinAssoc(a: Sweep, b: Sweep, c: Sweep)
    requires !a.aborted && !b.aborted
    ensures Join(a, Join(b, c)) == Join(Join(a, b), c)
  {
    assert a.log + (b.log + c.log) == (a.log + b.log) + c.log;
    assert a.left + (b.left + c.left) == (a.left + b.left) + c.left;
  }

  /** `recursive_deletion(path)` on the node found at `path`. */
  function Delete(path: string, node: Node, fails: set<string>): Outcome
    decreases node
  {
    match node
    case File => Outcome([OpenFailed(path)], Some(node))
    case Dir(entries) =>
      if entries == [] then Outcome([ReadFailed(path)], Some(node))
      else
        var s := DeleteEntries(path, entries, fails);
        if s.aborted then Outcome(s.log, Some(Dir(s.left)))
        else
          var ok := RmdirSucceeds(path, s.left, fails);
          Outcome(s.log + [RemovedDir(path, ok)], if ok then None else Some(Dir(s.left)))
  }

  /** The `while (entry != NULL)` loop over the entries of the directory at `path`. */
  function DeleteEntries(path: string, entries: seq<Entry>, fails: set<string>): Sweep
    decreases entries
  {
    if entries == [] then Sweep([], [], false)
    else
      var e := entries[0];
      var p := ChildPath(path, e.name);
      if Descends(e) then
        var sub := Delete(p, e.node, fails);
        var kept := if sub.remains.Some? then [Entry(e.name, sub.remains.value)] else [];
        Join(Sweep(sub.log, kept, false), DeleteEntries(path, entries[1..], fails))
      else if !e.node.Dir? then
        if p in fails then Sweep([Unlinked(p, false)], entries, true)
        else Join(Sweep([Unlinked(p, true)], [], false), DeleteEntries(path, entries[1..], fails))
      else
        Join(Sweep([], [e], false), DeleteEntries(path, entries[1..], fails))
  }

  /** The walk itself: the entry loop with a recursive call per subdirectory. */
  method RecursiveDeletion(path: string, node: Node, fails: set<string>) returns (log: seq<Step>, remains: Option<Node>)
    ensures Outcome(log, remains) == Delete(path, node, fails)
    decreases node, 2
  {
    if !node.Dir? {
      return [OpenFailed(path)], Some(node);
    }
    var entries := node.entries;
    if |entries| == 0 {
      return [ReadFailed(path)], Some(node);
    }
    var s := SweepLoop(path, entries, fails);
    if s.aborted {
      return s.log, Some(Dir(s.left));
    }
    var ok := RmdirSucceeds(path, s.left, fails);
    log := s.log + [RemovedDir(path, ok)];
    remains := if ok then None else Some(Dir(s.left));
  }

  /** The entry loop's specification unfolded at entry `i`. */
  lemma EntriesAt(path: string, entries: seq<Entry>, i: nat, fails: set<string>)
    requires i < |entries|
    ensures var e := entries[i];
      var p := ChildPath(path, e.name);
      var rest := DeleteEntries(path, entries[i + 1..], fails);
      DeleteEntries(path, entries[i..], fails) ==
        if Descends(e) then
          var sub := Delete(p, e.node, fails);
          Join(Sweep(sub.log, if sub.remains.Some? then [Entry(e.name, sub.remains.value)] else [], false), rest)
        else if !e.node.Dir? then
          if p in fails then Sweep([Unlinked(p, false)], entries[i..], true)
          else Join(Sweep([Unlinked(p, true)], [], false), rest)
        else Join(Sweep([], [e], false), rest)
  {
    assert entries[i..][0] == entries[i] && entries[i..][1..] == entries[i + 1..];
  }

  /** One pass of the entry loop on entry `i`: what it logs and keeps, and
      whether a failed `unlink` ends the loop there. */
  method SweepEntry(path: string, entries: seq<Entry>, i: nat, fails: set<string>) returns (piece: Sweep)
    requires i < |entries|
    ensures piece.aborted ==> piece == DeleteEntries(path, entries[i..], fails)
    ensures !piece.aborted ==>
      DeleteEntries(path, entries[i..], fails) == Join(piece, DeleteEntries(path, entries[i + 1..], fails))
    decreases entries, 0
  {
    var e := entries[i];
    var p := ChildPath(path, e.name);
    EntriesAt(path, entries, i, fails);
    if e.node.Dir? && !IsDot(e.name) {
      var sub, rem := RecursiveDeletion(p, e.node, fails);
      piece := Sweep(sub, if rem.Some? then [Entry(e.name, rem.value)] else [], false);
    } else if !e.node.Dir? {
      if p in fails {
        piece := Sweep([Unlinked(p, false)], entries[i..], true);
      } else {
        piece := Sweep([Unlinked(p, true)], [], false);
      }
    } else {
      piece := Sweep([], [e], false);
    }
  }

  /** The entry loop of `recursive_deletion`: descends into subdirectories,
      unlinks everything else except `.` and `..`, and stops at the first
      `unlink` that fails. */
  method SweepLoop(path: string, entries: seq<Entry>, fails: set<string>) returns (s: Sweep)
    ensures s == DeleteEntries(path, entries, fails)
    decreases entries, 1
  {
    var done := Sweep([], [], false);
    var i := 0;
    assert entries[0..] == entries;
    while i < |entries|
      invariant 0 <= i <= |entries| && !done.aborted
      invariant DeleteEntries(path, entries, fails) == Join(done, DeleteEntries(path, entries[i..], fails))
    {
      var piece := SweepEntry(path, entries, i, fails);
      if piece.aborted {
        return Join(done, piece);
      }
      JoinAssoc(done, piece, DeleteEntries(path, entries[i + 1..], fails));
      done := Join(done, piece);
      i := i + 1;
    }
    assert entries[i..] == [];
    s := done;
  }

  // ---------------------------------------------------------------------------
  // Post-order: everything happens below `path`, and `path` itself is touched
  // only by the very last step.
  // ---------------------------------------------------------------------------

  /** `p` names something inside the directory `path`. */
  predicate Below(p: string, path: string) {
    |p| > |path| && p[..|path| + 1] == path + "/"
  }

  lemma BelowChild(q: string, path: string, name: string)
    requires Below(q, ChildPath(path, name))
    ensures Below(q, path)
  {
    var c := ChildPath(path, name);
    assert q[..|path| + 1] == q[..|c| + 1][..|path| + 1];
  }

  predicate AllBelow(log: seq<Step>, path: string) {
    forall k :: 0 <= k < |log| ==> Below(log[k].path, path)
  }

  lemma AllBelowAppend(a: seq<Step>, b: seq<Step>, path: string)
    requires AllBelow(a, path) && AllBelow(b, path)
    ensures AllBelow(a + b, path)
  {
    assert forall k :: |a| <= k < |a + b| ==> (a + b)[k] == b[k - |a|];
  }

  /** Post-order: every step of `recursive_deletion(path)` acts on `path` or
      on something inside it, and only the last step may act on `path`
      itself, so a directory is removed only after all of its contents. */
  lemma {:induction false} DeletePostOrder(path: string, node: Node, fails: set<string>)
    ensures var log := Delete(path, node, fails).log;
      && |log| > 0
      && AllBelow(log[..|log| - 1], path)
      && (log[|log| - 1].path == path || Below(log[|log| - 1].path, path))
    decreases node, 1
  {
    var log := Delete(path, node, fails).log;
    match node
    case File =>
    case Dir(entries) =>
      if entries != [] {
        var s := DeleteEntries(path, entries, fails);
        SweepBelow(path, entries, fails);
        if s.aborted {
          SweepAbortEndsWithUnlink(path, entries, fails);
          assert log == s.log;
          assert log[..|log| - 1] == s.log[..|s.log| - 1];
        } else {
          assert log[..|log| - 1] == s.log;
        }
      }
  }

  /** Every step of the entry loop acts strictly inside `path`. */
  lemma {:induction false} SweepBelow(path: string, entries: seq<Entry>, fails: set<string>)
    ensures AllBelow(DeleteEntries(path, entries, fails).log, path)
    decreases entries, 0
  {
    if entries != [] {
      var e := entries[0];
      var p := ChildPath(path, e.name);
      var s := DeleteEntries(path, entries, fails);
      if Descends(e) {
        var sub := Delete(p, e.node, fails);
        DeletePostOrder(p, e.node, fails);
        forall k | 0 <= k < |sub.log| ensures Below(sub.log[k].path, path) {
          if k < |sub.log| - 1 {
            assert sub.log[k] == sub.log[..|sub.log| - 1][k];
          }
          if sub.log[k].path != p {
            BelowChild(sub.log[k].path, path, e.name);
          }
        }
        SweepBelow(path, entries[1..], fails);
        AllBelowAppend(sub.log, DeleteEntries(path, entries[1..], fails).log, path);
      } else if !e.node.Dir? {
        if p !in fails {
          SweepBelow(path, entries[1..], fails);
          AllBelowAppend([Unlinked(p, true)], DeleteEntries(path, entries[1..], fails).log, path);
        }
      } else {
        SweepBelow(path, entries[1..], fails);
      }
    }
  }

  /** A loop that stops early ends with the failed `unlink`. */
  lemma {:induction false} SweepAbortEndsWithUnlink(path: string, entries: seq<Entry>, fails: set<string>)
    requires DeleteEntries(path, entries, fails).aborted
    ensures var log := DeleteEntries(path, entries, fails).log;
      log != [] && log[|log| - 1].Unlinked? && !log[|log| - 1].ok
  {
    var e := entries[0];
    var p := ChildPath(path, e.name);
    if Descends(e) || e.node.Dir? || p !in fails {
      SweepAbortEndsWithUnlink(path, entries[1..], fails);
    }
  }

  // ---------------------------------------------------------------------------
  // `.` and `..` are neither descended into nor unlinked
  // ---------------------------------------------------------------------------

  /** The entries without the `.` and `..` directories. */
  function NoDots(entries: seq<Entry>): (r: seq<Entry>)
    ensures forall e :: e in r <==> e in entries && !DotDir(e)
  {
    if entries == [] then []
    else (if DotDir(entries[0]) then [] else [entries[0]]) + NoDots(entries[1..])
  }

  /** Taking `.` and `..` out of a directory changes none of the loop's
      steps and not whether it stops early: they are skipped. */
  lemma {:induction false} DotsIgnored(path: string, entries: seq<Entry>, fails: set<string>)
    ensures DeleteEntries(path, NoDots(entries), fails).log == DeleteEntries(path, entries, fails).log
    ensures DeleteEntries(path, NoDots(entries), fails).aborted == DeleteEntries(path, entries, fails).aborted
  {
    if entries != [] {
      DotsIgnored(path, entries[1..], fails);
      var e := entries[0];
      var n := NoDots(entries);
      var rest := DeleteEntries(path, entries[1..], fails);
      if !DotDir(e) {
        assert n == [e] + NoDots(entries[1..]);
        assert n[0] == e && n[1..] == NoDots(entries[1..]);
        var nrest := DeleteEntries(path, n[1..], fails);
        assert nrest.log == rest.log && nrest.aborted == rest.aborted;
      } else {
        assert n == NoDots(entries[1..]);
        assert DeleteEntries(path, entries, fails) == Join(Sweep([], [e], false), rest);
        assert [] + rest.log == rest.log;
      }
    }
  }

  // ---------------------------------------------------------------------------
  // Early stop on a failed unlink; no early stop for a failed subdirectory
  // ---------------------------------------------------------------------------

  /** Some file directly inside `path` cannot be unlinked. */
  predicate SomeUnlinkFails(path: string, entries: seq<Entry>, fails: set<string>) {
    exists i :: 0 <= i < |entries| && !entries[i].node.Dir? && ChildPath(path, entries[i].name) in fails
  }

  /** The loop stops early exactly when one of the files directly inside
      `path` cannot be unlinked; what happens inside subdirectories never
      stops it. */
  lemma {:induction false} AbortedIffUnlinkFails(path: string, entries: seq<Entry>, fails: set<string>)
    ensures DeleteEntries(path, entries, fails).aborted <==> SomeUnlinkFails(path, entries, fails)
  {
    if entries != [] {
      AbortedIffUnlinkFails(path, entries[1..], fails);
      if SomeUnlinkFails(path, entries[1..], fails) {
        var i :| 1 <= i + 1 < |entries| + 0 + 1 && 0 <= i < |entries[1..]| && !entries[1..][i].node.Dir?
          && ChildPath(path, entries[1..][i].name) in fails;
        assert entries[i + 1] == entries[1..][i];
      }
      if SomeUnlinkFails(path, entries, fails) {
        var i :| 0 <= i < |entries| && !entries[i].node.Dir? && ChildPath(path, entries[i].name) in fails;
        if i > 0 {
          assert entries[1..][i - 1] == entries[i];
        }
      }
    }
  }

  /** Unless a file directly inside `path` fails to unlink, the walk ends by
      trying `rmdir(path)`, even when a subdirectory could not be removed,
      and the directory is gone exactly when that `rmdir` succeeds. A failed
      unlink instead ends the walk with that unlink and leaves the
      directory in place. */
  lemma DeleteEndsWithRmdir(path: string, entries: seq<Entry>, fails: set<string>)
    requires entries != []
    ensures var o := Delete(path, Dir(entries), fails);
      && |o.log| > 0
      && var last := o.log[|o.log| - 1];
      && (!SomeUnlinkFails(path, entries, fails) ==>
            last.RemovedDir? && last.path == path && (last.ok <==> o.remains == None))
      && (SomeUnlinkFails(path, entries, fails) ==>
            last.Unlinked? && !last.ok && o.remains.Some?)
  {
    AbortedIffUnlinkFails(path, entries, fails);
    if SomeUnlinkFails(path, entries, fails) {
      SweepAbortEndsWithUnlink(path, entries, fails);
    }
  }

  // ---------------------------------------------------------------------------
  // Without refusals, the whole tree goes
  // ---------------------------------------------------------------------------

  /** Every directory the walk opens can be read: it lists at least one
      entry (a real directory always lists `.` and `..`). The nodes behind
      `.` and `..` are never opened, so nothing is asked of them. */
  predicate Readable(node: Node) {
    node.Dir? ==> node.entries != [] && forall e :: e in node.entries && Descends(e) ==> Readable(e.node)
  }

  /** When the system refuses nothing, `recursive_deletion` removes a
      readable directory completely. */
  lemma {:induction false} RemovesEverything(path: string, node: Node)
    requires node.Dir? && Readable(node)
    ensures Delete(path, node, {}).remains == None
    decreases node, 1
  {
    ClearsEntries(path, node.entries);
  }

  lemma {:induction false} ClearsEntries(path: string, entries: seq<Entry>)
    requires forall e :: e in entries && Descends(e) ==> Readable(e.node)
    ensures var s := DeleteEntries(path, entries, {});
      !s.aborted && forall e :: e in s.left ==> DotDir(e)
    decreases entries, 0
  {
    if entries != [] {
      var e := entries[0];
      assert e in entries;
      assert forall x :: x in entries[1..] ==> x in entries;
      ClearsEntries(path, entries[1..]);
      if Descends(e) {
        RemovesEverything(ChildPath(path, e.name), e.node);
      }
    }
  }

  // ---------------------------------------------------------------------------
  // A small tree: ./a holds b, which holds c.txt
  // ---------------------------------------------------------------------------

  function Dots(): seq<Entry> {
    [Entry(".", Dir([])), Entry("..", Dir([]))]
  }

  /** b: `.`, `..` and c.txt. */
  function SampleSub(): Node {
    Dir(Dots() + [Entry("c.txt", File)])
  }

  function SampleTree(): Node {
    Dir(Dots() + [Entry("b", SampleSub())])
  }

  /** The loop keeps `.` and `..` and goes on with the entries after them. */
  lemma DotsSweep(path: string, rest: seq<Entry>, fails: set<string>)
    ensures var r := DeleteEntries(path, rest, fails);
      DeleteEntries(path, Dots() + rest, fails) == Sweep(r.log, Dots() + r.left, r.aborted)
  {
    var dot, dotdot := Entry(".", Dir([])), Entry("..", Dir([]));
    var es1 := [dotdot] + rest;
    assert es1[0] == dotdot && es1[1..] == rest;
    var r := DeleteEntries(path, rest, fails);
    var s1 := DeleteEntries(path, es1, fails);
    assert s1 == Join(Sweep([], [dotdot], false), r);
    var es := [dot] + es1;
    assert es[0] == dot && es[1..] == es1;
    assert DeleteEntries(path, es, fails) == Join(Sweep([], [dot], false), s1);
    assert es == Dots() + rest;
  }

  /** The loop on a single entry. */
  lemma LastEntrySweep(path: string, e: Entry, fails: set<string>)
    ensures DeleteEntries(path, [e], fails) ==
      var p := ChildPath(path, e.name);
      if Descends(e) then
        var sub := Delete(p, e.node, fails);
        Sweep(sub.log, if sub.remains.Some? then [Entry(e.name, sub.remains.value)] else [], false)
      else if !e.node.Dir? then Sweep([Unlinked(p, !(p in fails))], if p in fails then [e] else [], p in fails)
      else Sweep([], [e], false)
  {
    assert [e][1..] == [];
  }

  /** Every entry of Dots() is one `rmdir` does not count. */
  lemma DotsOnly(fails: set<string>, path: string)
    requires path !in fails
    ensures RmdirSucceeds(path, Dots(), fails)
  {
  }

  /** With nothing refused, b goes as: unlink c.txt, then `rmdir b`. */
  lemma SampleSubRemoval()
    ensures Delete("./a/b", SampleSub(), {})
      == Outcome([Unlinked("./a/b/c.txt", true), RemovedDir("./a/b", true)], None)
  {
    assert ChildPath("./a/b", "c.txt") == "./a/b/c.txt";
    LastEntrySweep("./a/b", Entry("c.txt", File), {});
    DotsSweep("./a/b", [Entry("c.txt", File)], {});
    DotsOnly({}, "./a/b");
  }

  /** `rm -r a`: the file goes first, then b, then a. */
  lemma SampleRemoval()
    ensures Delete("./a", SampleTree(), {}).log
      == [Unlinked("./a/b/c.txt", true), RemovedDir("./a/b", true), RemovedDir("./a", true)]
  {
    assert ChildPath("./a", "b") == "./a/b";
    SampleSubRemoval();
    LastEntrySweep("./a", Entry("b", SampleSub()), {});
    DotsSweep("./a", [Entry("b", SampleSub())], {});
    DotsOnly({}, "./a");
  }

  /** The sample tree is readable, so the system removes it completely. */
  lemma SampleRemovedCompletely()
    ensures Readable(SampleTree())
    ensures Delete("./a", SampleTree(), {}).remains == None
  {
    var inner := SampleSub();
    assert Readable(inner) by {
      assert forall e :: e in inner.entries && Descends(e) ==> false;
    }
    assert forall e :: e in SampleTree().entries && Descends(e) ==> e.node == inner;
    RemovesEverything("./a", SampleTree());
  }

  /** When c.txt cannot be unlinked, b's walk stops without its `rmdir`,
      and a's walk still goes on to try (and fail) its own `rmdir`. */
  lemma SampleFailedUnlink()
    ensures Delete("./a", SampleTree(), {"./a/b/c.txt"}).log
      == [Unlinked("./a/b/c.txt", false), RemovedDir("./a", false)]
  {
    var fails := {"./a/b/c.txt"};
    assert ChildPath("./a/b", "c.txt") == "./a/b/c.txt";
    LastEntrySweep("./a/b", Entry("c.txt", File), fails);
    DotsSweep("./a/b", [Entry("c.txt", File)], fails);
    var b := Delete("./a/b", SampleSub(), fails);
    assert b == Outcome([Unlinked("./a/b/c.txt", false)], Some(Dir(Dots() + [Entry("c.txt", File)])));
    assert ChildPath("./a", "b") == "./a/b";
    LastEntrySweep("./a", Entry("b", SampleSub()), fails);
    DotsSweep("./a", [Entry("b", SampleSub())], fails);
    var left := Dots() + [Entry("b", b.remains.value)];
    assert !RmdirSucceeds("./a", left, fails) by {
      assert left[2] in left && !DotDir(left[2]);
    }
  }
}
