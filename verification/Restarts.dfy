/** A second start that finds leftovers of the first in the legacy directory
    (src/config/mod.rs): removals there may be refused without the start failing, so the
    next one merges what is left once more. */
module Restarts {
  import opened Options
  import opened LegacyMerge
  import opened AppFiles

  /** Two directories that differ at most in what stands for the database, which is not
      removed. */
  ghost predicate SameButDb(t: Entries, u: Entries) {
    (forall n :: n != DB ==> Lookup(u, n) == Lookup(t, n)) && (DB in t ==> DB in u)
  }

  /** Names other than the database and the data directory are as the first start left them. */
  lemma OthersSettle(m: Entries, rest: Entries, drawn: seq<byte>, drawn': seq<byte>, t: Entries, u: Entries, n: string)
    requires Overlay(Dir(m), Dir(rest)) == Dir(m) && |drawn| == KEY_BYTES
    requires Settles(m, drawn, t) && SameButDb(t, u) && n !in {DB, DATA}
    ensures Lookup(u, n) == Lookup(WithKey(m, drawn), n) == Lookup(t, n)
    ensures Lookup(Overlay(Dir(u), Dir(rest)).entries, n) == Lookup(u, n)
  {
    assert Lookup(u, n) == Lookup(t, n);
    LeftoverAt(m, rest, n);
  }

  /** The key found by a second start is that of the first. */
  lemma KeySettles(m: Entries, rest: Entries, drawn: seq<byte>, drawn': seq<byte>, t: Entries, u: Entries)
    requires Overlay(Dir(m), Dir(rest)) == Dir(m) && |drawn| == KEY_BYTES
    requires Settles(m, drawn, t) && SameButDb(t, u)
    ensures KEY in u && KEY in Overlay(Dir(u), Dir(rest)).entries
    ensures KeyOf(u, drawn') == KeyOf(m, drawn) == KeyOf(Overlay(Dir(u), Dir(rest)).entries, drawn')
  {
    OthersSettle(m, rest, drawn, drawn', t, u, KEY);
    KeyRoundTrip(drawn);
    assert Lookup(WithKey(m, drawn), KEY).Some?;
  }

  /** What a second start has to work on: `u` is what the first start made of the merged
      tree `m`, except for the database, which may have been written since; `rest` is what
      the first start left behind. */
  ghost predicate StartedOnce(m: Entries, rest: Entries, drawn: seq<byte>, t: Entries, u: Entries) {
    && Overlay(Dir(m), Dir(rest)) == Dir(m) && |drawn| == KEY_BYTES
    && Settles(m, drawn, t) && SameButDb(t, u)
  }

  /** The second start has no database to move one level up. */
  lemma NothingToLift(m: Entries, rest: Entries, drawn: seq<byte>, t: Entries, u: Entries)
    requires StartedOnce(m, rest, drawn, t, u)
    ensures var again := Overlay(Dir(u), Dir(rest)).entries; LiftDb(again) == again
    ensures HasLegacyDb(rest) ==> HasLegacyDb(m) && DB in u
    ensures DB in rest ==> DB in u
  {
    var again := Overlay(Dir(u), Dir(rest)).entries;
    LeftoverAt(m, rest, DATA);
    LeftoverAt(m, rest, DB);
    if HasLegacyDb(rest) { LeftoverAt(m[DATA].entries, rest[DATA].entries, DB); }
    assert DB in m || HasLegacyDb(m) ==> DB in t;
    if DB !in again {
      assert Lookup(u, DATA) == Lookup(t, DATA);
      assert !HasLegacyDb(u) && !HasLegacyDb(rest);
      assert again.Keys == u.Keys + rest.Keys;
    }
  }

  lemma OverlayMinus(e: Entries, f: Entries, n: string)
    requires Overlay(Dir(e), Dir(f)) == Dir(e) && n !in f
    ensures Overlay(Dir(e - {n}), Dir(f)) == Dir(e - {n})
  {
    forall k ensures OverlayAt(e - {n}, f, k) == OverlayAt(e - {n}, map[], k) { LeftoverAt(e, f, k); }
    OverlayByName(e - {n}, f, e - {n}, map[]);
    OverlayNothing(Dir(e - {n}));
  }

  /** Where nothing was lifted out of the data directory, leftovers in it change nothing. */
  lemma DataStays(m: Entries, rest: Entries, drawn: seq<byte>, t: Entries, u: Entries)
    requires StartedOnce(m, rest, drawn, t, u) && !(HasLegacyDb(m) && DB !in m)
    ensures var again := Overlay(Dir(u), Dir(rest)).entries;
            Lookup(DropEmptyData(again), DATA) == Lookup(DropEmptyData(u), DATA)
    ensures !HasLegacyDb(rest) || DB in m
  {
    LeftoverAt(m, rest, DATA);
    assert Lookup(u, DATA) == Lookup(t, DATA);
    if HasLegacyDb(rest) { LeftoverAt(m[DATA].entries, rest[DATA].entries, DB); }
  }

  /** The data directory out of which a start has taken the database. */
  lemma LiftedData(m: Entries, drawn: seq<byte>, t: Entries, u: Entries)
    requires HasLegacyDb(m) && DB !in m && Settles(m, drawn, t) && SameButDb(t, u)
    ensures !HasLegacyDb(u)
    ensures var left := Dir(m[DATA].entries - {DB});
            Lookup(u, DATA) == Some(left) || (left == Empty && Lookup(u, DATA) == None)
  {
    assert Lookup(u, DATA) == Lookup(t, DATA);
  }

  lemma DataLifted(m: Entries, rest: Entries, drawn: seq<byte>, t: Entries, u: Entries)
    requires StartedOnce(m, rest, drawn, t, u) && HasLegacyDb(m) && DB !in m
    ensures var again := Overlay(Dir(u), Dir(rest)).entries;
            if HasLegacyDb(rest) then HasLegacyDb(DropEmptyData(again)) && !HasLegacyDb(u)
            else Lookup(DropEmptyData(again), DATA) == Lookup(DropEmptyData(u), DATA)
  {
    LeftoverAt(m, rest, DATA);
    LiftedData(m, drawn, t, u);
    if DATA in rest {
      var e, f := m[DATA].entries, rest[DATA].entries;
      if DB in f {
        assert DB in Overlay(Dir(e - {DB}), Dir(f)).entries;
      } else {
        OverlayMinus(e, f, DB);
        OverlayOnNothing(Dir(f));
      }
    }
  }

  lemma DropsNothing(m: Entries, drawn: seq<byte>, t: Entries, u: Entries)
    requires Settles(m, drawn, t) && SameButDb(t, u)
    ensures t == Settled(m, drawn) <==> DropEmptyData(u) == u
    ensures Lookup(DropEmptyData(u), DATA) == Lookup(u, DATA) <==> DropEmptyData(u) == u
  {
    assert Lookup(u, DATA) == Lookup(t, DATA);
  }

  /** The data directory after the second start is that of the first, unless a database
      comes back into it from which the first had taken it. */
  lemma DataSettles(m: Entries, rest: Entries, drawn: seq<byte>, t: Entries, u: Entries)
    requires StartedOnce(m, rest, drawn, t, u)
    ensures var again := Overlay(Dir(u), Dir(rest)).entries;
            Lookup(DropEmptyData(again), DATA) == Lookup(u, DATA)
            <==> !(HasLegacyDb(rest) && DB !in m) && t == Settled(m, drawn)
  {
    NothingToLift(m, rest, drawn, t, u);
    DropsNothing(m, drawn, t, u);
    if HasLegacyDb(m) && DB !in m {
      DataLifted(m, rest, drawn, t, u);
    } else {
      DataStays(m, rest, drawn, t, u);
    }
  }

  /** A second start that finds `rest` left over: whatever key it would draw, the key is
      that of the first.  The database is as the running program left it if and only if no
      leftover would replace it, and the whole directory is if and only if, besides, no
      database comes back into the data directory and the first start left no empty one. */
  lemma SecondStart(m: Entries, rest: Entries, drawn: seq<byte>, t: Entries, u: Entries, drawn': seq<byte>)
    requires StartedOnce(m, rest, drawn, t, u)
    ensures var again := Overlay(Dir(u), Dir(rest)).entries;
            var dbKept := DB in rest ==> DB in u && Overlay(u[DB], rest[DB]) == u[DB];
            && KeyOf(again, drawn') == KeyOf(u, drawn') == KeyOf(m, drawn)
            && (DbNode(Settled(again, drawn')) == DbNode(u) <==> dbKept)
            && (Settled(again, drawn') == u <==>
                dbKept && !(HasLegacyDb(rest) && DB !in m) && t == Settled(m, drawn))
  {
    var again := Overlay(Dir(u), Dir(rest)).entries;
    KeySettles(m, rest, drawn, drawn', t, u);
    NothingToLift(m, rest, drawn, t, u);
    SettledDb(again, drawn');
    DataSettles(m, rest, drawn, t, u);
    var settled := Settled(again, drawn');
    assert settled == DropEmptyData(again);
    assert Lookup(settled, DB) == OverlayAt(u, rest, DB);
    forall n | n !in {DB, DATA} ensures Lookup(settled, n) == Lookup(u, n) {
      OthersSettle(m, rest, drawn, drawn', t, u, n);
    }
    if Lookup(settled, DB) == Lookup(u, DB) && Lookup(settled, DATA) == Lookup(u, DATA) {
      forall n ensures Lookup(settled, n) == Lookup(u, n) { if n == DB {} else if n == DATA {} }
      SameByName(settled, u);
    }
  }

  /** At once, the second start finds the key and the database of the first; it leaves the
      directory alone if and only if the first took no database out of a data directory
      whose leftover still has it, and left no empty data directory. */
  lemma SecondStartAtOnce(m: Entries, rest: Entries, drawn: seq<byte>, t: Entries, drawn': seq<byte>)
    requires Overlay(Dir(m), Dir(rest)) == Dir(m) && |drawn| == KEY_BYTES && Settles(m, drawn, t)
    ensures var again := Overlay(Dir(t), Dir(rest)).entries;
            && Compatible(Dir(t), Dir(rest))
            && KeyOf(again, drawn') == KeyOf(m, drawn)
            && DbNode(Settled(again, drawn')) == DbNode(t) == DbNode(m)
            && (Settled(again, drawn') == t <==> !(HasLegacyDb(rest) && DB !in m) && t == Settled(m, drawn))
  {
    SecondStart(m, rest, drawn, t, t, drawn');
    LeftoverAt(m, rest, DB);
    SettledDb(m, drawn);
    StillCompatible(m, rest, drawn, t, t);
  }

  /** Once the database has been written, with `content` in it, the second start still
      finds that database if and only if the leftovers have no database file at the root
      with another content. */
  lemma SecondStartAfterUse(m: Entries, rest: Entries, drawn: seq<byte>, t: Entries, content: string, drawn': seq<byte>)
    requires Overlay(Dir(m), Dir(rest)) == Dir(m) && |drawn| == KEY_BYTES && Settles(m, drawn, t)
    requires DB in t ==> t[DB].File?
    ensures var used := t[DB := File(content)];
            var again := Overlay(Dir(used), Dir(rest)).entries;
            var kept := !(DB in rest && rest[DB].File? && rest[DB].content != content);
            && Compatible(Dir(used), Dir(rest))
            && KeyOf(again, drawn') == KeyOf(m, drawn)
            && (DbNode(Settled(again, drawn')) == Some(File(content)) <==> kept)
            && (Settled(again, drawn') == used <==>
                kept && !(HasLegacyDb(rest) && DB !in m) && t == Settled(m, drawn))
  {
    var used := t[DB := File(content)];
    SecondStart(m, rest, drawn, t, used, drawn');
    LeftoverAt(m, rest, DB);
    StillCompatible(m, rest, drawn, t, used);
  }

  lemma StillCompatible(m: Entries, rest: Entries, drawn: seq<byte>, t: Entries, u: Entries)
    requires StartedOnce(m, rest, drawn, t, u)
    requires u == t || (DB in u && u[DB].File? && (DB in t ==> t[DB].File?))
    ensures Compatible(Dir(u), Dir(rest))
  {
    forall n | n in rest && n in u ensures Compatible(u[n], rest[n]) {
      LeftoverAt(m, rest, n);
      SettledIsCompatible(m[n], rest[n]);
      if n == DATA {
        CompatibleData(m, rest, drawn, t, u);
      } else if n != DB {
        OthersSettle(m, rest, drawn, drawn, t, u, n);
      }
    }
  }

  lemma CompatibleData(m: Entries, rest: Entries, drawn: seq<byte>, t: Entries, u: Entries)
    requires StartedOnce(m, rest, drawn, t, u) && DATA in rest && DATA in u
    ensures Compatible(u[DATA], rest[DATA])
  {
    LeftoverAt(m, rest, DATA);
    SettledIsCompatible(m[DATA], rest[DATA]);
    assert Lookup(u, DATA) == Lookup(t, DATA);
  }

  /** A leftover in the data directory comes back: the second start does not leave the
      directory as it was. */
  lemma LeftoverDataReturns(content: string, drawn: seq<byte>, drawn': seq<byte>)
    requires |drawn| == KEY_BYTES
    ensures var rest := map[DATA := Dir(map[DB := File(content)])];
            var once := Settled(rest, drawn);
            && Overlay(Dir(rest), Dir(rest)) == Dir(rest)
            && DATA !in once && DATA in Settled(Overlay(Dir(once), Dir(rest)).entries, drawn')
  {
    var rest := map[DATA := Dir(map[DB := File(content)])];
    assert Overlay(rest[DATA], rest[DATA]).entries == rest[DATA].entries;
    assert Overlay(Dir(rest), Dir(rest)).entries == rest;
    SecondStartAtOnce(rest, rest, drawn, Settled(rest, drawn), drawn');
    assert rest[DATA].entries - {DB} == map[];
  }

  /** A leftover database at the root replaces whatever has been written since. */
  lemma LeftoverDbReverts(older: string, newer: string, drawn: seq<byte>, drawn': seq<byte>)
    requires |drawn| == KEY_BYTES && older != newer
    ensures var rest := map[DB := File(older)];
            var used := Settled(rest, drawn)[DB := File(newer)];
            && Overlay(Dir(rest), Dir(rest)) == Dir(rest)
            && DbNode(used) == Some(File(newer))
            && DbNode(Settled(Overlay(Dir(used), Dir(rest)).entries, drawn')) == Some(File(older))
  {
    var rest := map[DB := File(older)];
    var used := Settled(rest, drawn)[DB := File(newer)];
    assert Overlay(Dir(rest), Dir(rest)).entries == rest;
    SettledDb(Overlay(Dir(used), Dir(rest)).entries, drawn');
  }
}
