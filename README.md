# Breakout rooms: live voting state, page arithmetic, client address

This project models, in Dafny, the live side of the planning-poker service's
breakout rooms, plus two small pure helpers of the same web application.

- **Breakout channel** (`src/domain/breakout_channel.rs`). A room (`Channel`)
  holds a roster of users keyed by `lookupId`, a reveal flag `showVotes`, and a
  broadcast sender. The sender is modelled as `log`: an append-only sequence of
  every message the room has sent. A message is either a lifecycle event frame
  built by `send`, or a voter list. The rendered HTML voter list is modelled as
  the sorted roster it is rendered from, together with the reveal flag. The
  template receives the whole channel, so it can see that flag. The operations
  are `find_or_create` on the registry of rooms, then `add_user`,
  `remove_user`, `user_changed_name`, `vote`, `toggle_votes`, `is_empty` and
  `voters_html`. They are methods of the `Channel` and `Registry` classes, and
  each is proved to leave a state given by a function of the old state (module
  `Roster`). The sort inside `voters_html` is modelled by an in-place stable
  insertion sort on an array. Rust's `sort_by` is a stable merge sort, but a
  stable sort has only one possible result. It is proved equal to `SortByName`, and `SortByName` is proved
  sorted by lower-cased name, a permutation of the roster, and stable
  (module `VoterOrder`).
- **Event frames** (module `EventFrame`). `send(name, data)` builds
  `event: NAME\ndata: DATA\n\n`, the field layout of the server-sent events
  stream format of the HTML Living Standard. The page's websocket listener
  (`public/scripts/ws-listener.js`) reads the name back with
  `data.split(' ')[1].split('\n')[0]`. That read is modelled and proved to
  recover the name.
- **Pagination** (`src/util/pagination.rs`). The model covers
  `PaginatedResponse::new`, both `Default` implementations, and the defaulting
  of page, size and offset at the top of `paginate`. A lemma ties a response to
  the page of rows it shows.
- **Client address** (`src/extract/real_ip.rs`). The model takes the first
  comma-separated entry of `X-Forwarded-For`, trimmed, when the header is
  readable text, and otherwise the peer address. The only rejection is a
  missing peer address.

The user record in `src/domain/user.rs` has no `vote` field, yet the channel
code reads and writes `u.vote: Option<i64>`. The model's `User` therefore
carries `vote: Option<int>`, and identity is `lookupId` equality.

`Breakout.RoundScenario` is a worked example with no contract of its own. Two users join room
"abc" and one of them votes. The votes are revealed and a new round starts, and the
assertions along the way check the roster, the sorted voter lists and that a
second lookup finds the same room.

Three behaviours of the code are worth stating:
- Nothing in the code removes an empty room from the registry.
- `user_changed_name` broadcasts three voter lists: one from `remove_user`,
  one from `add_user` and its own.
- The lifecycle events are named `enable_voting` (new round, votes cleared)
  and `disable_voting` (reveal).

## Model

| member | source | states |
|---|---|---|
| `Breakout.Registry.FindOrCreate` | src/domain/breakout_channel.rs:22-34 | For a present id, it returns the existing room and the map is unchanged. For an absent id, it files a fresh room under exactly that id, with no users, `showVotes` false, an empty log and `lookupId` equal to the key; every other entry is unchanged. Every room stays filed under its own id. |
| `Breakout.Registry.constructor` | src/lib.rs:88 | The registry starts as the empty map. |
| `Breakout.RegistryNoAliasing` | src/domain/breakout_channel.rs:26-33 | Two distinct ids of a valid registry never share a room. |
| `Breakout.Channel.constructor` | src/domain/breakout_channel.rs:28-33 | A new room has no users, is not revealed, has sent nothing, and carries its lookup id. |
| `Breakout.Channel.ToggleVotes` | src/domain/breakout_channel.rs:36-51 | The flag is negated. When it becomes false, every vote is cleared. When it becomes true, the roster is unchanged. Exactly two messages are appended: `enable_voting` on a new round or `disable_voting` on a reveal, then the sorted voter list. Unique identities are kept. |
| `Breakout.Channel.Vote` | src/domain/breakout_channel.rs:53-66 | The roster becomes `CastVote` of the old roster: the first entry with the user's identity has its vote toggled, and nothing else changes. Exactly one voter list is appended. |
| `Breakout.Channel.UserChangedName` | src/domain/breakout_channel.rs:68-72 | The roster becomes the old roster without that identity, followed by the given user. Three voter lists are appended: after the removal, after the addition, and its own. |
| `Breakout.Channel.AddUser` | src/domain/breakout_channel.rs:74-79 | A present identity leaves the roster unchanged. Otherwise the user is appended at the end. One voter list is appended. Unique identities are kept. |
| `Breakout.Channel.RemoveUser` | src/domain/breakout_channel.rs:81-84 | The roster becomes `Without` of the old roster, which drops every entry with that identity. One voter list is appended. Unique identities are kept. |
| `Breakout.Channel.IsEmpty` | src/domain/breakout_channel.rs:86-88 | True exactly when the roster has no users. |
| `Breakout.Channel.VotersHtml` | src/domain/breakout_channel.rs:94-109 | The voter list is `SortByName` of the roster, together with the reveal flag. |
| `Breakout.LifecycleEventNames` | public/scripts/ws-listener.js:4-14 | The page reads `enable_voting` from the new-round frame and `disable_voting` from the reveal frame. |
| `VoterOrder.SortVoters` | src/domain/breakout_channel.rs:95-101 | Sorting the local vector in place leaves exactly `SortByName` of its old contents. |
| `VoterOrder.InsertLast` | src/domain/breakout_channel.rs:97-101 | One insertion step moves the next entry left past every greater key and nothing further. This is what keeps equal keys in order. |
| `VoterOrder.ShiftGreater` | src/domain/breakout_channel.rs:97-101 | The shifting loop moves entries right exactly while their key is greater than the inserted entry's. It stops after the first entry whose key is not greater, or at the front. |
| `VoterOrder.InsertPosition` | src/domain/breakout_channel.rs:97-101 | The inserted entry lands after the last entry whose key is not greater than its own and before all the greater ones. |
| `VoterOrder.SortByNameSorted` | src/domain/breakout_channel.rs:97-101 | The voter list is ordered by lower-cased display name. |
| `VoterOrder.SortByNamePermutes` | src/domain/breakout_channel.rs:95-101 | The voter list holds exactly the roster's entries, each as often as in the roster. |
| `VoterOrder.SortByNameStable` | src/domain/breakout_channel.rs:97-101 | For every key, the entries with that key appear in roster order: `sort_by` is stable. |
| `VoterOrder.InsertStable` | src/domain/breakout_channel.rs:97-101 | Inserting one entry keeps, for every key, the order of the entries with that key. |
| `VoterOrder.InsertSorted` | src/domain/breakout_channel.rs:97-101 | Inserting into a sorted list gives a sorted list. |
| `VoterOrder.LexLeTotal` | src/domain/breakout_channel.rs:98-100 | The string comparison used as the comparator is total. |
| `VoterOrder.LexLeTransitive` | src/domain/breakout_channel.rs:98-100 | The comparison is transitive. |
| `VoterOrder.LexLeAntisymmetric` | src/domain/breakout_channel.rs:98-100 | Keys that compare equal are equal strings. |
| `VoterOrder.LowerCaseInsensitive` | src/domain/breakout_channel.rs:98-100 | Two names get the same sort key exactly when they differ only in the case of ASCII letters, position by position. |
| `VoterOrder.LowerIsLower` | src/domain/breakout_channel.rs:99 | A sort key holds no upper-case ASCII letter, and lower-casing it again changes nothing. |
| `Roster.FindUser` | src/domain/breakout_channel.rs:54-58 | The result is the first position holding the identity, or none exactly when no entry has it. |
| `Roster.CastVote` | src/domain/breakout_channel.rs:53-64 | A vote keeps the roster's length, identities and names. An absent identity leaves the roster unchanged. |
| `Roster.CastVoteToggles` | src/domain/breakout_channel.rs:59-63 | With unique identities, the matching entry's vote becomes none if it already equalled the value, and the value otherwise. Every other entry is unchanged. |
| `Roster.CastVoteTwice` | src/domain/breakout_channel.rs:59-63 | A second vote with the same value clears the vote, unless the vote held that value before the first. |
| `Roster.CastVoteOverwrite` | src/domain/breakout_channel.rs:59-63 | After votes `v` and then `w`, with `w` different from `v`, the vote is `w`. |
| `Roster.WithoutMembers` | src/domain/breakout_channel.rs:82 | Removal leaves no entry with the identity and keeps every other entry. |
| `Roster.WithoutAppend` | src/domain/breakout_channel.rs:82 | Removal distributes over concatenation, so the kept entries stay in order. |
| `Roster.WithoutAbsent` | src/domain/breakout_channel.rs:82 | Removing an absent identity is a no-op. |
| `Roster.WithoutEmpty` | src/domain/breakout_channel.rs:81-88 | After a removal, the room is empty exactly when every entry had the removed identity. |
| `Roster.WithoutUnique` | src/domain/breakout_channel.rs:82 | Removal keeps identities unique. |
| `Roster.AddedCases` | src/domain/breakout_channel.rs:74-77 | After an add, the identity is present. The length grows by one exactly when the identity was absent. The old roster is a prefix of the new one. |
| `Roster.AddedIdempotent` | src/domain/breakout_channel.rs:74-77 | Adding the same user twice is the same as adding once. |
| `Roster.AddedUnique` | src/domain/breakout_channel.rs:74-77 | Adding keeps identities unique. |
| `Roster.RenamedShape` | src/domain/breakout_channel.rs:68-70 | After a rename, the given user, vote included, is the last entry, and no other entry has its identity. The other entries are those of the old roster without that identity, in their old order. |
| `Roster.RenamedUnique` | src/domain/breakout_channel.rs:68-70 | Renaming keeps identities unique. |
| `Roster.ClearVotesShape` | src/domain/breakout_channel.rs:39-40 | A new round leaves every vote none and keeps the length, the identities in order, and the names. An entry without a vote is unchanged. |
| `Roster.ClearVotesUnique` | src/domain/breakout_channel.rs:40 | Clearing the votes keeps identities unique. |
| `EventFrame.EventNameRoundTrip` | src/domain/breakout_channel.rs:90-92 | For a name without a space or newline, the page's parse of `send(name, data)` gives back the name, whatever the data. |
| `EventFrame.FrameIsOneEvent` | src/domain/breakout_channel.rs:90-92 | Without line breaks in the name or data, the frame's lines are an `event` field with the name, a `data` field with the data, and the blank line that dispatches the event. |
| `EventFrame.Split` | public/scripts/ws-listener.js:6 | `split` yields at least one piece, no piece contains the separator, and the pieces joined by the separator give back the input. |
| `EventFrame.SplitJoin` | public/scripts/ws-listener.js:6 | `split` gives back the pieces of a `join` when no piece contains the separator. |
| `Pagination.NewResponse` | src/util/pagination.rs:33-50 | Items, total, page and size are passed through. `has_prev` holds exactly when the page is above 1. `has_next` holds exactly when offset plus item count is below the total. `start` is the offset plus one, so page 1 starts at 1. `end` is at most the total and at most page times size, and equals one of them. |
| `Pagination.ResponseMatchesRows` | src/util/pagination.rs:33-38 | For page and size at least 1, built over the rows such a page shows: there is a next page exactly when rows lie beyond this page. `start` and `end` are the 1-based positions of the first and last row shown. A page past the end shows nothing, with `end` before `start`. |
| `Pagination.PageRows` | src/util/pagination.rs:105-118 | A `LIMIT/OFFSET` page holds `limit` rows when that many lie from `offset` on, the remaining rows when fewer do, and none past the end. The rows are taken in order from position `offset`. |
| `Pagination.DefaultResponse` | src/util/pagination.rs:52-65 | The default response has no items, total 0, page 1, start 1, end 1 and size 10, with neither a next nor a previous page. |
| `Pagination.DefaultDiffersFromEmptyPage` | src/util/pagination.rs:33-65 | The default response equals what `new` builds for an empty first page of ten, except that `end` is 1 instead of 0. |
| `Pagination.DefaultPagination` | src/util/pagination.rs:12-19 | `Pagination::default` asks for page 1 of size 15. |
| `Pagination.PageArgs` | src/util/pagination.rs:87-89 | A missing page becomes 1 and a missing size becomes 10. The offset is (page - 1) times size, so it is 0 on a defaulted page. |
| `RealIp.ClientIp` | src/extract/real_ip.rs:14-34 | The extraction is rejected exactly when the peer address is missing. With no header, or an unreadable one, the result is the peer address. |
| `RealIp.FromHeader` | src/extract/real_ip.rs:24-26 | A readable header yields its first comma-separated entry, trimmed. The result has no comma and does not start or end with whitespace. |
| `RealIp.SingleEntryHeader` | src/extract/real_ip.rs:26 | A readable header with no comma yields the whole header, trimmed. |
| `RealIp.HeaderText` | src/extract/real_ip.rs:25-27 | The header reads as text exactly when every byte is visible ASCII or a tab, and then it is those bytes as characters. |
| `RealIp.FirstField` | src/extract/real_ip.rs:26 | The first field is the longest comma-free prefix. |
| `RealIp.Trim` | src/extract/real_ip.rs:26 | The trimmed text neither starts nor ends with whitespace, and uses only characters of the input. |
| `RealIp.TrimShape` | src/extract/real_ip.rs:26 | Trimming keeps one contiguous stretch of the input and drops only whitespace on either side of it. |

## Left out

- The tokio broadcast channel is reduced to an append-only log. Subscribers, the buffer of 100, lagging receivers and send errors are not modelled. The code discards the result of every `send`.
- The `Arc<Mutex<HashMap>>` wrapper around the registry (`src/lib.rs:76,88`) is concurrency and is not modelled. The registry is a plain object.
- The askama template `breakout_voters.html` is not part of this model. A rendered voter list is the sorted roster together with the reveal flag.
- Removing empty rooms from the registry is not modelled, because no code in the repository does it.
- `VoterOrder.Lower`: only ASCII `A`-`Z` are lower-cased. Rust's `to_lowercase` covers all of Unicode, so `VoterOrder.LowerCaseInsensitive` ignores ASCII case only.
- `Pagination.NewResponse`: uses unbounded integers. The 64-bit overflow of `(page - 1) * page_size`, `page * page_size` and `items.len() as i64` is not modelled.
- The SQL side of `paginate` is left out: the count and page queries and the binding of arguments.
- `Pagination.PageRows`: models a `LIMIT/OFFSET` result only for non-negative bounds. A page or size below 1 would bind a negative offset or limit, which the database treats on its own terms.
- `RealIp.ClientIp`: the peer address is an input string. Axum's `ConnectInfo` extraction and the formatting of the IP address are not modelled. The rule that `HeaderValue::to_str` accepts only visible ASCII and tab is the http crate's, stated here rather than derived.
- `EventFrame.ClientEventName` merges two cases into `None`: a message that is not an event, and one where the script's `[1]` is undefined and throws. The rest of the page script manipulates the DOM and is left out.
- OAuth, JWT, Stripe, the repositories, the routes, the other extractors and the HTMX helpers are outside the modelled core.
