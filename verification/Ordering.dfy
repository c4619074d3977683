/** Sorting by `(recv, sequence)`, in either direction, of anything that has such a key. */
module Ordering {

  /** What rows are sorted by: first when they were received, then when they were written. */
  datatype SortKey = SortKey(recv: int, sequence: int)

  predicate KeyLess(a: SortKey, b: SortKey) {
    a.recv < b.recv || (a.recv == b.recv && a.sequence < b.sequence)
  }

  /** Playback order of two keys. */
  predicate Precedes(reverse: bool, a: SortKey, b: SortKey) {
    if reverse then KeyLess(b, a) else KeyLess(a, b)
  }

  ghost predicate Distinct<T(!new)>(keys: map<T, SortKey>) {
    forall a, b :: a in keys && b in keys && a != b ==> keys[a] != keys[b]
  }

  ghost predicate IsFirst<T(!new)>(keys: map<T, SortKey>, reverse: bool, rows: set<T>, first: T)
    requires rows <= keys.Keys
  {
    && first in rows
    && forall other :: other in rows && other != first ==> Precedes(reverse, keys[first], keys[other])
  }

  lemma {:induction false} FirstExists<T(!new)>(keys: map<T, SortKey>, reverse: bool, rows: set<T>)
    requires Distinct(keys) && rows <= keys.Keys && rows != {}
    ensures exists first :: IsFirst(keys, reverse, rows, first)
    decreases |rows|
  {
    var some :| some in rows;
    var rest := rows - {some};
    if rest == {} {
      assert forall other :: other in rows ==> other == some || other in rest;
      assert IsFirst(keys, reverse, rows, some);
    } else {
      FirstExists(keys, reverse, rest);
      var best :| IsFirst(keys, reverse, rest, best);
      var first := if Precedes(reverse, keys[some], keys[best]) then some else best;
      assert keys[some] != keys[best];
      forall other | other in rows && other != first ensures Precedes(reverse, keys[first], keys[other]) {
        assert other == some || other in rest;
      }
      assert IsFirst(keys, reverse, rows, first);
    }
  }

  /** The next of some rows, in playback order. */
  ghost function First<T(!new)>(keys: map<T, SortKey>, reverse: bool, rows: set<T>): (first: T)
    requires Distinct(keys) && rows <= keys.Keys && rows != {}
    ensures IsFirst(keys, reverse, rows, first)
  {
    FirstExists(keys, reverse, rows);
    var first :| IsFirst(keys, reverse, rows, first);
    first
  }

  /** Rows as one list, in playback order. */
  ghost function Playlist<T(!new)>(keys: map<T, SortKey>, reverse: bool, rows: set<T>): (list: seq<T>)
    requires Distinct(keys) && rows <= keys.Keys
    ensures |list| == |rows|
    ensures forall row :: row in list <==> row in rows
    decreases |rows|
  {
    if rows == {} then []
    else
      var first := First(keys, reverse, rows);
      [first] + Playlist(keys, reverse, rows - {first})
  }

  ghost predicate InOrder<T>(keys: map<T, SortKey>, reverse: bool, list: seq<T>)
    requires forall row :: row in list ==> row in keys
  {
    forall i, j :: 0 <= i < j < |list| ==> Precedes(reverse, keys[list[i]], keys[list[j]])
  }

  lemma {:induction false} PlaylistInOrder<T(!new)>(keys: map<T, SortKey>, reverse: bool, rows: set<T>)
    requires Distinct(keys) && rows <= keys.Keys
    ensures InOrder(keys, reverse, Playlist(keys, reverse, rows))
    decreases |rows|
  {
    if rows != {} {
      var first := First(keys, reverse, rows);
      PlaylistInOrder(keys, reverse, rows - {first});
      var rest := Playlist(keys, reverse, rows - {first});
      forall j | 0 <= j < |rest| ensures Precedes(reverse, keys[first], keys[rest[j]]) {
        assert rest[j] in rest;
      }
    }
  }

  /** In an ordered list, what a row precedes is what comes after it. */
  lemma PrecedesIsLater<T>(keys: map<T, SortKey>, reverse: bool, list: seq<T>, i: nat, j: nat)
    requires forall row :: row in list ==> row in keys
    requires InOrder(keys, reverse, list) && i < |list| && j < |list|
    ensures Precedes(reverse, keys[list[i]], keys[list[j]]) <==> i < j
  {}

  /** There is only one way to list rows in order. */
  lemma {:induction false} PlaylistUnique<T(!new)>(keys: map<T, SortKey>, reverse: bool, rows: set<T>, list: seq<T>)
    requires Distinct(keys) && rows <= keys.Keys
    requires forall row :: row in list <==> row in rows
    requires InOrder(keys, reverse, list)
    ensures list == Playlist(keys, reverse, rows)
    decreases |list|
  {
    if list == [] {
      assert rows == {};
    } else {
      assert list[0] in list;
      var first := First(keys, reverse, rows);
      assert first in list;
      var rest := rows - {first};
      forall row ensures row in list[1..] <==> row in rest {
        if row in list[1..] {
          var j :| 1 <= j < |list| && list[j] == row;
          assert Precedes(reverse, keys[list[0]], keys[list[j]]);
        }
      }
      PlaylistUnique(keys, reverse, rest, list[1..]);
    }
  }

  function Reversed<T>(s: seq<T>): (r: seq<T>)
    ensures |r| == |s|
    ensures forall i :: 0 <= i < |s| ==> r[i] == s[|s| - 1 - i]
  {
    if s == [] then [] else Reversed(s[1..]) + [s[0]]
  }

  /** Backwards is the mirror image of forwards. */
  lemma BackwardsMirrors<T(!new)>(keys: map<T, SortKey>, rows: set<T>)
    requires Distinct(keys) && rows <= keys.Keys
    ensures Playlist(keys, true, rows) == Reversed(Playlist(keys, false, rows))
  {
    hide Playlist, Reversed;
    var forwards := Playlist(keys, false, rows);
    var mirror := Reversed(forwards);
    PlaylistInOrder(keys, false, rows);
    ReversedHolds(forwards);
    assert InOrder(keys, true, mirror);
    PlaylistUnique(keys, true, rows, mirror);
  }

  lemma ReversedHolds<T>(list: seq<T>)
    ensures forall x :: x in Reversed(list) <==> x in list
  {
    hide Reversed;
    forall x | x in list ensures x in Reversed(list) {
      var i :| 0 <= i < |list| && list[i] == x;
      assert Reversed(list)[|list| - 1 - i] == x;
    }
  }

  /** Some of the rows of a list, in the order of the list. */
  ghost function Select<T(!new)>(list: seq<T>, rows: set<T>): (selected: seq<T>)
    ensures forall row :: row in selected <==> row in list && row in rows
  {
    if list == [] then []
    else (if list[0] in rows then [list[0]] else []) + Select(list[1..], rows)
  }

  lemma {:induction false} SelectInOrder<T(!new)>(keys: map<T, SortKey>, reverse: bool, list: seq<T>, rows: set<T>)
    requires forall row :: row in list ==> row in keys
    requires InOrder(keys, reverse, list)
    ensures InOrder(keys, reverse, Select(list, rows))
  {
    if list != [] {
      SelectInOrder(keys, reverse, list[1..], rows);
      var rest := Select(list[1..], rows);
      forall j | 0 <= j < |rest| ensures Precedes(reverse, keys[list[0]], keys[rest[j]]) {
        assert rest[j] in list[1..];
        var k :| 1 <= k < |list| && list[k] == rest[j];
        assert Precedes(reverse, keys[list[0]], keys[list[k]]);
      }
    }
  }

  /** Listing some of the rows is picking them out of the one list of all of them. */
  lemma PlaylistSelects<T(!new)>(keys: map<T, SortKey>, reverse: bool, all: set<T>, rows: set<T>)
    requires Distinct(keys) && rows <= all <= keys.Keys
    ensures Playlist(keys, reverse, rows) == Select(Playlist(keys, reverse, all), rows)
  {
    PlaylistInOrder(keys, reverse, all);
    SelectInOrder(keys, reverse, Playlist(keys, reverse, all), rows);
    PlaylistUnique(keys, reverse, rows, Select(Playlist(keys, reverse, all), rows));
  }

  /** The things of one list matched with those of another, one for one and key for key. */
  ghost predicate Matched<S(!new), T(!new)>(
    from: map<S, SortKey>, to: map<T, SortKey>, some: set<S>, others: set<T>, partner: map<S, T>)
    requires some <= from.Keys && others <= to.Keys
  {
    && partner.Keys == some
    && (forall s :: s in some ==> partner[s] in others && from[s] == to[partner[s]])
    && (forall t :: t in others ==> exists s :: s in some && partner[s] == t)
  }

  /** Lists of things that match, match. */
  lemma PlaylistsMatch<S(!new), T(!new)>(
    from: map<S, SortKey>, to: map<T, SortKey>, reverse: bool, some: set<S>, others: set<T>, partner: map<S, T>)
    requires Distinct(from) && Distinct(to) && some <= from.Keys && others <= to.Keys
    requires Matched(from, to, some, others, partner)
    ensures var list, mirror := Playlist(from, reverse, some), Playlist(to, reverse, others);
            |list| == |mirror| && forall i :: 0 <= i < |list| ==> mirror[i] == partner[list[i]]
  {
    hide Playlist;
    var list := Playlist(from, reverse, some);
    PlaylistInOrder(from, reverse, some);
    var mirror := Mirror(from, to, some, others, partner, reverse, list);
    PlaylistUnique(to, reverse, others, mirror);
  }

  lemma Mirror<S(!new), T(!new)>(
    from: map<S, SortKey>, to: map<T, SortKey>, some: set<S>, others: set<T>, partner: map<S, T>, reverse: bool,
        list: seq<S>)
    returns (mirror: seq<T>)
    requires some <= from.Keys && others <= to.Keys && Matched(from, to, some, others, partner)
    requires (forall s :: s in list <==> s in some) && InOrder(from, reverse, list)
    ensures |mirror| == |list| && forall i :: 0 <= i < |list| ==> list[i] in partner && mirror[i] == partner[list[i]]
    ensures (forall t :: t in mirror <==> t in others) && InOrder(to, reverse, mirror)
  {
    assert forall i :: 0 <= i < |list| ==> list[i] in partner by {
      forall i | 0 <= i < |list| ensures list[i] in partner { assert list[i] in list; }
    }
    mirror := seq(|list|, i requires 0 <= i < |list| => partner[list[i]]);
    forall t | t in others ensures t in mirror {
      var s :| s in some && partner[s] == t;
      assert s in list;
      var i :| 0 <= i < |list| && list[i] == s;
      assert mirror[i] == t;
    }
    forall t | t in mirror ensures t in others {
      var i :| 0 <= i < |mirror| && mirror[i] == t;
      assert list[i] in list;
    }
    forall i, j | 0 <= i < j < |mirror| ensures Precedes(reverse, to[mirror[i]], to[mirror[j]]) {
      assert list[i] in list && list[j] in list;
      assert Precedes(reverse, from[list[i]], from[list[j]]);
    }
  }
}
