/** A participant of a breakout room, and the identity rules on a roster of them. */
module Users {
  import opened Wrappers

  /** A user as the room holds it. Identity is `lookupId`; `vote` is the live vote. */
  datatype User = User(id: int, lookupId: string, displayName: string, vote: Option<int>)

  /** Some entry of `s` carries the identity `id`. */
  predicate HasId(s: seq<User>, id: string) {
    exists k :: 0 <= k < |s| && s[k].lookupId == id
  }

  /** No identity occurs twice in `s`. */
  predicate UniqueIds(s: seq<User>) {
    forall i, j :: 0 <= i < j < |s| ==> s[i].lookupId != s[j].lookupId
  }

  /** The identities of `s`, in roster order. */
  function LookupIds(s: seq<User>): seq<string> {
    seq(|s|, i requires 0 <= i < |s| => s[i].lookupId)
  }

  /** The display names of `s`, in roster order. */
  function DisplayNames(s: seq<User>): seq<string> {
    seq(|s|, i requires 0 <= i < |s| => s[i].displayName)
  }
}
