/** Moving a legacy configuration directory into the new one (src/config/mod.rs).

    A directory tree is a value; `MoveLegacyDir` changes the two trees step by step as
    the source does.  Every operation that can fail for a reason outside the tree (a
    rename across devices, a full disk, a missing permission) is a free choice. */
module LegacyMerge {
  import opened Options

  datatype Node = File(content: string) | Dir(entries: Entries)
  type Entries = map<string, Node>

  const Empty := Dir(map[])

  /** The target tree overridden by the source tree.  A source directory that is empty
      leaves a target file alone: the code has nothing to move into it. */
  function Overlay(d: Node, s: Node): Node
    decreases s
  {
    if d.File? && s == Empty then d
    else if d.Dir? && s.Dir? then
      Dir(map n | n in d.entries.Keys + s.entries.Keys ::
        if n !in s.entries then d.entries[n]
        else if n !in d.entries then s.entries[n]
        else Overlay(d.entries[n], s.entries[n]))
    else s
  }

  /** The same over a target that may not exist yet. */
  function Over(d: Option<Node>, s: Node): Node {
    if d.None? then s else Overlay(d.value, s)
  }

  /** No file meets a directory where something would have to be moved. */
  predicate Compatible(d: Node, s: Node)
    decreases s
  {
    if s.File? then d.File?
    else if d.File? then s == Empty
    else forall n :: n in s.entries && n in d.entries ==> Compatible(d.entries[n], s.entries[n])
  }

  function Lookup(e: Entries, n: string): Option<Node> {
    if n in e then Some(e[n]) else None
  }

  /** What name `n` holds in the overlay of two directories. */
  function OverlayAt(e: Entries, s: Entries, n: string): Option<Node> {
    if n !in s then Lookup(e, n) else Some(Over(Lookup(e, n), s[n]))
  }

  lemma OverlayLookup(e: Entries, s: Entries, n: string)
    ensures Lookup(Overlay(Dir(e), Dir(s)).entries, n) == OverlayAt(e, s, n)
  {
  }

  lemma SameByName(a: Entries, b: Entries)
    requires forall n :: Lookup(a, n) == Lookup(b, n)
    ensures a == b
  {
    assert forall n :: n in a <==> Lookup(a, n).Some?;
    assert forall n :: n in b <==> Lookup(b, n).Some?;
    assert forall n | n in a :: a[n] == Lookup(a, n).value;
  }

  lemma OverlayByName(e: Entries, s: Entries, e': Entries, s': Entries)
    requires forall n :: OverlayAt(e, s, n) == OverlayAt(e', s', n)
    ensures Overlay(Dir(e), Dir(s)) == Overlay(Dir(e'), Dir(s'))
  {
    var m, m' := Overlay(Dir(e), Dir(s)).entries, Overlay(Dir(e'), Dir(s')).entries;
    forall n ensures Lookup(m, n) == Lookup(m', n) {
      OverlayLookup(e, s, n);
      OverlayLookup(e', s', n);
    }
    SameByName(m, m');
  }

  lemma OverlayNothing(d: Node)
    ensures Overlay(d, Empty) == d
  {
    if d.Dir? { assert Overlay(d, Empty).entries == d.entries; }
  }

  lemma OverlayOnNothing(s: Node)
    ensures Overlay(Empty, s) == s
  {
    if s.Dir? { assert Overlay(Empty, s).entries == s.entries; }
  }

  /** The content of the file at a path below a node. */
  function FileAt(t: Node, path: seq<string>): Option<string> {
    match t
    case File(content) => if path == [] then Some(content) else None
    case Dir(entries) =>
      if path != [] && path[0] in entries then FileAt(entries[path[0]], path[1..]) else None
  }

  /** Path by path, a file of the overlay is the source's, or else the target's. */
  lemma {:induction false} OverlayFiles(d: Node, s: Node, path: seq<string>)
    ensures FileAt(s, path).Some? ==> FileAt(Overlay(d, s), path) == FileAt(s, path)
    ensures FileAt(s, path).None? ==>
              FileAt(Overlay(d, s), path).None? || FileAt(Overlay(d, s), path) == FileAt(d, path)
    ensures FileAt(s, path).None? && Compatible(d, s) ==> FileAt(Overlay(d, s), path) == FileAt(d, path)
    decreases path
  {
    if d.Dir? && s.Dir? && path != [] && path[0] in d.entries && path[0] in s.entries {
      OverlayFiles(d.entries[path[0]], s.entries[path[0]], path[1..]);
    }
  }

  /** Nothing is lost even by a move that stops halfway: every file of the old source is
      still in the source or has arrived in the target, at the same path. */
  lemma NothingLost(src0: Entries, dst0: Option<Node>, src: Entries, dst: Option<Node>, path: seq<string>)
    requires Over(dst, Dir(src)) == Over(dst0, Dir(src0))
    requires FileAt(Dir(src0), path).Some?
    ensures FileAt(Dir(src), path) == FileAt(Dir(src0), path)
            || (dst.Some? && FileAt(dst.value, path) == FileAt(Dir(src0), path))
  {
    if dst0.Some? { OverlayFiles(dst0.value, Dir(src0), path); }
    if dst.Some? { OverlayFiles(dst.value, Dir(src), path); }
  }

  /** `rest` is what may be left of `whole` when some of it has been removed. */
  predicate Part(rest: Node, whole: Node)
    decreases rest
  {
    if rest.File? then rest == whole
    else whole.Dir? && forall n :: n in rest.entries ==> n in whole.entries && Part(rest.entries[n], whole.entries[n])
  }

  lemma {:induction false} PartOfItself(t: Node)
    ensures Part(t, t)
    decreases t
  {
    if t.Dir? {
      forall n | n in t.entries ensures Part(t.entries[n], t.entries[n]) { PartOfItself(t.entries[n]); }
    }
  }

  /** A source whose overlay changes nothing is compatible with the target. */
  lemma {:induction false} SettledIsCompatible(d: Node, s: Node)
    requires Overlay(d, s) == d
    ensures Compatible(d, s)
    decreases s
  {
    if d.Dir? && s.Dir? {
      forall n | n in s.entries && n in d.entries ensures Compatible(d.entries[n], s.entries[n]) {
        assert Overlay(d, s).entries[n] == Overlay(d.entries[n], s.entries[n]);
        SettledIsCompatible(d.entries[n], s.entries[n]);
      }
    }
  }

  /** `rename` replaces a file by a file, and an empty directory by a directory. */
  predicate RenameAllowed(d: Option<Node>, s: Node) {
    d.None? || (d.value.File? && s.File?) || (d.value == Empty && s.Dir?)
  }

  /** How a move ended: `fault` says that the environment refused an operation whose
      failure is reported, `residue` that it refused a removal, which is not. */
  datatype Outcome = Outcome(ok: bool, fault: bool, residue: bool)

  /** What holds for name `n` while the move is under way: `pending` names are untouched,
      the others hold their final value, and what is left of them in the source is
      already in the target. */
  ghost predicate Progress(src0: Entries, dst0: Entries, src: Entries, dst: Entries,
                           pending: set<string>, residue: bool) {
    && pending <= src0.Keys
    && (forall n :: n in pending || n !in src0 ==>
          Lookup(src, n) == Lookup(src0, n) && Lookup(dst, n) == Lookup(dst0, n))
    && (forall n :: n in src0 && n !in pending ==>
          && n in dst && Some(dst[n]) == OverlayAt(dst0, src0, n)
          && (n in src ==> residue && Overlay(dst[n], src[n]) == dst[n])
          && (n in dst0 ==> Compatible(dst0[n], src0[n])))
  }

  lemma ProgressConserves(src0: Entries, dst0: Entries, src: Entries, dst: Entries,
                          pending: set<string>, residue: bool)
    requires Progress(src0, dst0, src, dst, pending, residue)
    ensures Overlay(Dir(dst), Dir(src)) == Overlay(Dir(dst0), Dir(src0))
  {
    forall n ensures OverlayAt(dst, src, n) == OverlayAt(dst0, src0, n) {
      if n in pending || n !in src0 {
        assert Lookup(src, n) == Lookup(src0, n);
      }
    }
    OverlayByName(dst, src, dst0, src0);
  }

  lemma ProgressDone(src0: Entries, dst0: Entries, src: Entries, dst: Entries, residue: bool)
    requires Progress(src0, dst0, src, dst, {}, residue)
    ensures Dir(dst) == Overlay(Dir(dst0), Dir(src0))
    ensures !residue ==> src == map[]
    ensures Compatible(Dir(dst0), Dir(src0))
  {
    forall n ensures Lookup(dst, n) == OverlayAt(dst0, src0, n) {
      if n !in src0 { assert Lookup(dst, n) == Lookup(dst0, n); }
    }
    forall n ensures OverlayAt(dst, map[], n) == OverlayAt(dst0, src0, n) {}
    OverlayByName(dst, map[], dst0, src0);
    OverlayNothing(Dir(dst));
    forall n | n in src ensures residue {
      assert n in src0 by { assert Lookup(src, n) != None; }
    }
  }

  function Put(e: Entries, n: string, v: Option<Node>): Entries {
    if v.Some? then e[n := v.value] else e - {n}
  }

  /** Changing one name without changing its overlay leaves the whole overlay alone. */
  lemma EntryConserves(src: Entries, e: Entries, n: string, moved: Option<Node>, stays: Node)
    requires n in src && (moved.None? ==> n !in e)
    requires Over(moved, stays) == Over(Lookup(e, n), src[n])
    ensures Overlay(Dir(Put(e, n, moved)), Dir(src[n := stays])) == Overlay(Dir(e), Dir(src))
  {
    var e', src' := Put(e, n, moved), src[n := stays];
    forall k ensures OverlayAt(e', src', k) == OverlayAt(e, src, k) {}
    OverlayByName(e', src', e, src);
  }

  lemma PutPart(src: Entries, src0: Entries, n: string, stays: Option<Node>)
    requires Part(Dir(src), Dir(src0))
    requires stays.Some? ==> n in src0 && Part(stays.value, src0[n])
    ensures Part(Dir(Put(src, n, stays)), Dir(src0))
  {
  }

  lemma ProgressStep(src0: Entries, dst0: Entries, src: Entries, e: Entries,
                     pending: set<string>, residue: bool, n: string,
                     moved: Option<Node>, stays: Option<Node>, left: bool)
    requires Progress(src0, dst0, src, e, pending, residue) && n in pending
    requires moved == OverlayAt(dst0, src0, n)
    requires stays.Some? ==> left && Over(moved, stays.value) == moved.value
    requires n in dst0 ==> Compatible(dst0[n], src0[n])
    ensures Progress(src0, dst0, Put(src, n, stays), Put(e, n, moved), pending - {n}, residue || left)
  {
  }

  /** The recursive move.  Whichever renames, copies and removals the environment lets
      through: the overlay of what is left on what has arrived never changes, so no file
      is lost even when the move stops halfway; a move that reports success has built the
      overlay and, unless a removal was refused, emptied the source; and without a fault
      it succeeds exactly on compatible trees. */
  method MoveLegacyDir(src0: Entries, dst0: Option<Node>)
    returns (src: Entries, dst: Option<Node>, r: Outcome)
    ensures Over(dst, Dir(src)) == Over(dst0, Dir(src0)) && Part(Dir(src), Dir(src0))
    ensures dst0.Some? ==> dst.Some?
    ensures r.ok ==> dst == Some(Over(dst0, Dir(src0)))
    ensures r.ok && !r.residue ==> src == map[]
    ensures r.ok ==> !r.fault && (dst0.Some? ==> Compatible(dst0.value, Dir(src0)))
    ensures !r.ok && !r.fault ==> dst0.Some? && !Compatible(dst0.value, Dir(src0))
    decreases Dir(src0), 1
  {
    src, dst := src0, dst0;
    PartOfItself(Dir(src0));
    if dst.None? {
      var created: bool := *;
      if !created { return src, dst, Outcome(false, true, false); }
      dst := Some(Empty);
      OverlayOnNothing(Dir(src0));
    }
    var readable: bool := *;
    if !readable { return src, dst, Outcome(false, true, false); }
    if dst.value.File? {
      // nothing can be created, renamed or copied below a file
      return src, dst, Outcome(src == map[], false, false);
    }
    var e;
    src, e, r := MoveEntries(src0, dst.value.entries);
    dst := Some(Dir(e));
  }

  /** The loop over the entries, in any order, into a directory that is there. */
  method MoveEntries(src0: Entries, e0: Entries) returns (src: Entries, e: Entries, r: Outcome)
    ensures Overlay(Dir(e), Dir(src)) == Overlay(Dir(e0), Dir(src0)) && Part(Dir(src), Dir(src0))
    ensures r.ok ==> Dir(e) == Overlay(Dir(e0), Dir(src0)) && (!r.residue ==> src == map[])
    ensures r.ok ==> !r.fault && Compatible(Dir(e0), Dir(src0))
    ensures !r.ok && !r.fault ==> !Compatible(Dir(e0), Dir(src0))
    decreases Dir(src0), 0
  {
    src, e := src0, e0;
    PartOfItself(Dir(src0));
    var residue, pending := false, src0.Keys;
    while pending != {}
      invariant Progress(src0, e0, src, e, pending, residue)
      invariant Part(Dir(src), Dir(src0))
    {
      var n :| n in pending;
      assert Lookup(src, n) == Lookup(src0, n) && Lookup(e, n) == Lookup(e0, n);
      var moved, stays, result := MoveEntry(src0[n], Lookup(e, n));
      PutPart(src, src0, n, stays);
      var src', e' := Put(src, n, stays), Put(e, n, moved);
      if !result.ok {
        ProgressConserves(src0, e0, src, e, pending, residue);
        EntryConserves(src, e, n, moved, stays.value);
        return src', e', Outcome(false, result.fault, residue);
      }
      ProgressStep(src0, e0, src, e, pending, residue, n, moved, stays, result.residue);
      src, e, pending, residue := src', e', pending - {n}, residue || result.residue;
    }
    ProgressDone(src0, e0, src, e, residue);
    ProgressConserves(src0, e0, src, e, pending, residue);
    r := Outcome(true, false, residue);
  }

  /** The body of the loop: one directory entry and what the target holds under its name. */
  method MoveEntry(entry: Node, target: Option<Node>)
    returns (moved: Option<Node>, stays: Option<Node>, r: Outcome)
    ensures stays.Some? ==> Over(moved, stays.value) == Over(target, entry) && Part(stays.value, entry)
    ensures stays.None? ==> r.ok
    ensures target.Some? ==> moved.Some?
    ensures r.ok ==> moved == Some(Over(target, entry)) && (stays.Some? ==> r.residue)
    ensures r.ok ==> !r.fault && (target.Some? ==> Compatible(target.value, entry))
    ensures !r.ok && !r.fault ==> target.Some? && !Compatible(target.value, entry)
    decreases entry, 2
  {
    moved, stays := target, Some(entry);
    PartOfItself(entry);
    var renamed: bool := *;
    if renamed && RenameAllowed(target, entry) {
      OverlayOnNothing(entry);
      return Some(entry), None, Outcome(true, false, false);
    }
    if entry.Dir? {
      var created: bool := *;
      if moved.None? && created {
        moved := Some(Empty);
        OverlayOnNothing(entry);
      }
      var rest, result;
      rest, moved, result := MoveLegacyDir(entry.entries, moved);
      stays, r := Some(Dir(rest)), result;
      if !r.ok { return; }
      OverlayNothing(moved.value);
      var removed: bool := *;
      if removed && rest == map[] {
        stays := None;
      } else {
        r := r.(residue := true);
      }
    } else {
      var copied: bool := *;
      if target.Some? && target.value.Dir? { return moved, stays, Outcome(false, false, false); }
      if !copied {
        // the copy may have stopped after creating the target, or part of it
        var begun: bool := *;
        if begun {
          var written: nat :| written <= |entry.content|;
          moved := Some(File(entry.content[..written]));
        }
        return moved, stays, Outcome(false, true, false);
      }
      moved := Some(entry);
      var removed: bool := *;
      if removed { stays := None; }
      r := Outcome(true, false, !removed);
    }
  }
}
