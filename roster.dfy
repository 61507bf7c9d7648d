/**
 * What each roster operation of a breakout room does to the sequence of its
 * users, as functions of the old roster. The room's methods are proved to
 * leave exactly these values behind.
 */
module Roster {
  import opened Wrappers
  import opened Users

  /** The position of the first entry with identity `id`, as `iter().find` visits them. */
  function FindUser(s: seq<User>, id: string): (r: Option<nat>)
    ensures r.None? <==> !HasId(s, id)
    ensures r.Some? ==> r.value < |s| && s[r.value].lookupId == id
    ensures r.Some? ==> forall k :: 0 <= k < r.value ==> s[k].lookupId != id
  {
    if s == [] then None
    else if s[0].lookupId == id then Some(0)
    else match FindUser(s[1..], id)
      case None => None
      case Some(k) => Some(k + 1)
  }

  /** A vote equal to the one already held withdraws it; any other replaces it. */
  function Toggled(current: Option<int>, value: Option<int>): Option<int> {
    if current == value then None else value
  }

  /** The roster after `vote(user, value)`: only the first entry with that identity changes. */
  function CastVote(s: seq<User>, id: string, value: Option<int>): (r: seq<User>)
    ensures |r| == |s|
    ensures LookupIds(r) == LookupIds(s) && DisplayNames(r) == DisplayNames(s)
    ensures !HasId(s, id) ==> r == s
  {
    match FindUser(s, id)
    case None => s
    case Some(k) => s[k := s[k].(vote := Toggled(s[k].vote, value))]
  }

  /** The roster after `retain(|u| u.lookup_id != id)`. */
  function Without(s: seq<User>, id: string): (r: seq<User>)
    decreases |s|
  {
    if s == [] then []
    else Without(s[..|s| - 1], id) + (if s[|s| - 1].lookupId != id then [s[|s| - 1]] else [])
  }

  /** The roster after `add_user(u)`: `u` is appended unless its identity is present. */
  function Added(s: seq<User>, u: User): (r: seq<User>) {
    if HasId(s, u.lookupId) then s else s + [u]
  }

  /** The roster after `user_changed_name(u)`: remove by identity, then add. */
  function Renamed(s: seq<User>, u: User): seq<User> {
    Added(Without(s, u.lookupId), u)
  }

  /** The roster after the votes are cleared for a new round. */
  function ClearVotes(s: seq<User>): (r: seq<User>) {
    seq(|s|, i requires 0 <= i < |s| => s[i].(vote := None))
  }

  // ---------------------------------------------------------------- Without

  /** Removal keeps exactly the entries with another identity, and drops every match. */
  lemma {:induction false} WithoutMembers(s: seq<User>, id: string)
    ensures !HasId(Without(s, id), id)
    ensures forall u :: u in Without(s, id) <==> u in s && u.lookupId != id
    decreases |s|
  {
    if s != [] {
      WithoutMembers(s[..|s| - 1], id);
      assert s == s[..|s| - 1] + [s[|s| - 1]];
      var r := Without(s, id);
      forall k | 0 <= k < |r| ensures r[k].lookupId != id {
        assert r[k] in r;
      }
    }
  }

  /** Removal preserves the relative order of what it keeps: it distributes over `+`. */
  lemma {:induction false} WithoutAppend(a: seq<User>, b: seq<User>, id: string)
    ensures Without(a + b, id) == Without(a, id) + Without(b, id)
    decreases |b|
  {
    if b == [] {
      assert a + b == a;
    } else {
      assert (a + b)[..|a + b| - 1] == a + b[..|b| - 1];
      WithoutAppend(a, b[..|b| - 1], id);
    }
  }

  /** Removing an absent identity is a no-op. */
  lemma {:induction false} WithoutAbsent(s: seq<User>, id: string)
    requires !HasId(s, id)
    ensures Without(s, id) == s
    decreases |s|
  {
    if s != [] {
      var init := s[..|s| - 1];
      assert !HasId(init, id) by {
        forall k | 0 <= k < |init| ensures init[k].lookupId != id {
          assert init[k] == s[k];
        }
      }
      WithoutAbsent(s[..|s| - 1], id);
      assert s == s[..|s| - 1] + [s[|s| - 1]];
    }
  }

  /** The room becomes empty exactly when every remaining entry has the removed identity. */
  lemma {:induction false} WithoutEmpty(s: seq<User>, id: string)
    ensures Without(s, id) == [] <==> forall k :: 0 <= k < |s| ==> s[k].lookupId == id
  {
    WithoutMembers(s, id);
    if Without(s, id) != [] {
      assert Without(s, id)[0] in Without(s, id);
    }
    if exists k :: 0 <= k < |s| && s[k].lookupId != id {
      var k :| 0 <= k < |s| && s[k].lookupId != id;
      assert s[k] in s;
    }
  }

  /** Removal keeps identities unique. */
  lemma {:induction false} WithoutUnique(s: seq<User>, id: string)
    requires UniqueIds(s)
    ensures UniqueIds(Without(s, id))
    decreases |s|
  {
    if s != [] {
      var init := s[..|s| - 1];
      var last := s[|s| - 1];
      assert UniqueIds(init);
      WithoutUnique(init, id);
      WithoutMembers(init, id);
      var r := Without(s, id);
      forall i, j | 0 <= i < j < |r| ensures r[i].lookupId != r[j].lookupId {
        if j == |Without(init, id)| {
          assert r[i] in Without(init, id);
          var k :| 0 <= k < |init| && init[k] == r[i];
          assert s[k] == r[i] && r[j] == last;
        }
      }
    }
  }

  // ------------------------------------------------------------------ Added

  /** Adding a present identity changes nothing; adding a new one appends it, one longer. */
  lemma AddedCases(s: seq<User>, u: User)
    ensures HasId(Added(s, u), u.lookupId)
    ensures |Added(s, u)| == if HasId(s, u.lookupId) then |s| else |s| + 1
    ensures Added(s, u)[..|s|] == s
  {
    if !HasId(s, u.lookupId) {
      assert (s + [u])[|s|].lookupId == u.lookupId;
    }
  }

  /** Joining twice is joining once. */
  lemma AddedIdempotent(s: seq<User>, u: User)
    ensures Added(Added(s, u), u) == Added(s, u)
  {
    AddedCases(s, u);
  }

  /** Adding keeps identities unique. */
  lemma AddedUnique(s: seq<User>, u: User)
    requires UniqueIds(s)
    ensures UniqueIds(Added(s, u))
  {
    if !HasId(s, u.lookupId) {
      var r := s + [u];
      forall i, j | 0 <= i < j < |r| ensures r[i].lookupId != r[j].lookupId {
        if j == |s| {
          assert r[i] == s[i];
        }
      }
    }
  }

  // ---------------------------------------------------------------- Renamed

  /**
   * After a rename, the renamed user is the last entry, exactly as given,
   * and no other entry has its identity; the other entries keep their order.
   */
  lemma RenamedShape(s: seq<User>, u: User)
    ensures Renamed(s, u) == Without(s, u.lookupId) + [u]
    ensures forall k :: 0 <= k < |Renamed(s, u)| - 1 ==> Renamed(s, u)[k].lookupId != u.lookupId
    ensures Without(Renamed(s, u), u.lookupId) == Without(s, u.lookupId)
  {
    WithoutMembers(s, u.lookupId);
    var w := Without(s, u.lookupId);
    WithoutAbsent(w, u.lookupId);
    WithoutAppend(w, [u], u.lookupId);
    assert Without([u], u.lookupId) == [] by {
      assert [u][..0] == [];
    }
    forall k | 0 <= k < |w| ensures w[k].lookupId != u.lookupId {
      assert w[k] in w;
    }
  }

  /** Renaming keeps identities unique. */
  lemma RenamedUnique(s: seq<User>, u: User)
    requires UniqueIds(s)
    ensures UniqueIds(Renamed(s, u))
  {
    WithoutUnique(s, u.lookupId);
    AddedUnique(Without(s, u.lookupId), u);
  }

  // --------------------------------------------------------------- CastVote

  /**
   * The vote toggle law: with unique identities, the entry with that identity
   * loses its vote when it already held `value` and takes `value` otherwise;
   * nothing else about any entry changes.
   */
  lemma CastVoteToggles(s: seq<User>, k: nat, value: Option<int>)
    requires UniqueIds(s) && k < |s|
    ensures var r := CastVote(s, s[k].lookupId, value);
      && r[k] == s[k].(vote := if s[k].vote == value then None else value)
      && forall j :: 0 <= j < |s| && j != k ==> r[j] == s[j]
  {
    var f := FindUser(s, s[k].lookupId);
    assert f == Some(k);
  }

  /** Voting twice with the same value keeps the vote only if it was that value; else it clears. */
  lemma CastVoteTwice(s: seq<User>, k: nat, value: Option<int>)
    requires UniqueIds(s) && k < |s|
    ensures CastVote(CastVote(s, s[k].lookupId, value), s[k].lookupId, value)[k].vote
         == if s[k].vote == value then value else None
  {
    CastVoteToggles(s, k, value);
    var r := CastVote(s, s[k].lookupId, value);
    assert LookupIds(r) == LookupIds(s);
    assert UniqueIds(r) by {
      forall i, j | 0 <= i < j < |r| ensures r[i].lookupId != r[j].lookupId {
        assert LookupIds(r)[i] == r[i].lookupId && LookupIds(s)[i] == s[i].lookupId;
        assert LookupIds(r)[j] == r[j].lookupId && LookupIds(s)[j] == s[j].lookupId;
      }
    }
    assert r[k].lookupId == s[k].lookupId;
    CastVoteToggles(r, k, value);
  }

  /** A second vote with a different value always leaves that value. */
  lemma CastVoteOverwrite(s: seq<User>, k: nat, v: Option<int>, w: Option<int>)
    requires UniqueIds(s) && k < |s| && v != w
    ensures CastVote(CastVote(s, s[k].lookupId, v), s[k].lookupId, w)[k].vote == w
  {
    CastVoteToggles(s, k, v);
    var r := CastVote(s, s[k].lookupId, v);
    assert UniqueIds(r) by {
      forall i, j | 0 <= i < j < |r| ensures r[i].lookupId != r[j].lookupId {
        assert LookupIds(r)[i] == r[i].lookupId && LookupIds(s)[i] == s[i].lookupId;
        assert LookupIds(r)[j] == r[j].lookupId && LookupIds(s)[j] == s[j].lookupId;
      }
    }
    assert r[k].lookupId == s[k].lookupId;
    CastVoteToggles(r, k, w);
  }

  // ------------------------------------------------------------- ClearVotes

  /** A new round withdraws every vote and changes nothing else, order included. */
  lemma ClearVotesShape(s: seq<User>)
    ensures |ClearVotes(s)| == |s|
    ensures forall k :: 0 <= k < |s| ==> ClearVotes(s)[k].vote == None
    ensures LookupIds(ClearVotes(s)) == LookupIds(s)
    ensures DisplayNames(ClearVotes(s)) == DisplayNames(s)
    ensures forall k :: 0 <= k < |s| && s[k].vote == None ==> ClearVotes(s)[k] == s[k]
  {
  }

  /** Clearing the votes keeps identities unique. */
  lemma ClearVotesUnique(s: seq<User>)
    requires UniqueIds(s)
    ensures UniqueIds(ClearVotes(s))
  {
  }
}
