/**
 * The order in which a room shows its voters: by display name, ignoring
 * case, keeping roster order among equal names (a stable sort).
 */
module VoterOrder {
  import opened Users

  /** Lower-cases one character (ASCII letters only). */
  function LowerChar(c: char): (r: char)
    ensures 'A' <= c <= 'Z' ==> 'a' <= r <= 'z' && r as int - c as int == 32
    ensures !('A' <= c <= 'Z') ==> r == c
  {
    if 'A' <= c <= 'Z' then (c as int + 32) as char else c
  }

  /** Lower-cases a string character by character. */
  function Lower(s: string): (r: string)
    ensures |r| == |s|
    ensures forall i :: 0 <= i < |s| ==> r[i] == LowerChar(s[i])
  {
    seq(|s|, i requires 0 <= i < |s| => LowerChar(s[i]))
  }

  /** `c` and `d` are one character, or the two cases of one ASCII letter. */
  predicate SameLetterUpToCase(c: char, d: char) {
    || c == d
    || ('A' <= c <= 'Z' && d as int == c as int + 32)
    || ('A' <= d <= 'Z' && c as int == d as int + 32)
  }

  /** `a` and `b` differ at most in the case of ASCII letters, position by position. */
  predicate SameUpToAsciiCase(a: string, b: string) {
    |a| == |b| && forall i :: 0 <= i < |a| ==> SameLetterUpToCase(a[i], b[i])
  }

  /** Two characters lower-case alike exactly when they agree up to ASCII case. */
  lemma LowerCharAlike(c: char, d: char)
    ensures LowerChar(c) == LowerChar(d) <==> SameLetterUpToCase(c, d)
  {
  }

  /**
   * Comparing lower-cased names is comparing names while ignoring ASCII case:
   * two names have the same key exactly when they differ only in the case of
   * their letters.
   */
  lemma LowerCaseInsensitive(a: string, b: string)
    ensures Lower(a) == Lower(b) <==> SameUpToAsciiCase(a, b)
  {
    if Lower(a) == Lower(b) {
      forall i | 0 <= i < |a| ensures SameLetterUpToCase(a[i], b[i]) {
        assert Lower(a)[i] == Lower(b)[i];
        LowerCharAlike(a[i], b[i]);
      }
    }
    if SameUpToAsciiCase(a, b) {
      forall i | 0 <= i < |a| ensures Lower(a)[i] == Lower(b)[i] {
        LowerCharAlike(a[i], b[i]);
      }
    }
  }

  /** A lower-cased name holds no upper-case ASCII letter, and lower-casing it again changes nothing. */
  lemma LowerIsLower(s: string)
    ensures forall i :: 0 <= i < |s| ==> !('A' <= Lower(s)[i] <= 'Z')
    ensures Lower(Lower(s)) == Lower(s)
  {
  }

  /** Lexicographic order on strings by code point, as Rust's `Ord` for `str`. */
  predicate LexLe(a: string, b: string)
    decreases |a|
  {
    if a == [] then true
    else if b == [] then false
    else if a[0] < b[0] then true
    else if b[0] < a[0] then false
    else LexLe(a[1..], b[1..])
  }

  lemma {:induction false} LexLeRefl(a: string)
    ensures LexLe(a, a)
  {
    if a != [] { LexLeRefl(a[1..]); }
  }

  lemma {:induction false} LexLeTotal(a: string, b: string)
    ensures LexLe(a, b) || LexLe(b, a)
  {
    if a != [] && b != [] && a[0] == b[0] { LexLeTotal(a[1..], b[1..]); }
  }

  lemma {:induction false} LexLeAntisymmetric(a: string, b: string)
    requires LexLe(a, b) && LexLe(b, a)
    ensures a == b
  {
    if a != [] && b != [] {
      LexLeAntisymmetric(a[1..], b[1..]);
      assert a == [a[0]] + a[1..] && b == [b[0]] + b[1..];
    }
  }

  lemma {:induction false} LexLeTransitive(a: string, b: string, c: string)
    requires LexLe(a, b) && LexLe(b, c)
    ensures LexLe(a, c)
  {
    if a != [] && b != [] && c != [] && a[0] == b[0] && b[0] == c[0] {
      LexLeTransitive(a[1..], b[1..], c[1..]);
    }
  }

  /** The sort key of a voter: its lower-cased display name. */
  function Key(u: User): string {
    Lower(u.displayName)
  }

  /** The comparator given to `sort_by`, read as "not greater". */
  predicate NameLe(u: User, v: User) {
    LexLe(Key(u), Key(v))
  }

  predicate SortedByName(s: seq<User>) {
    forall i, j :: 0 <= i < j < |s| ==> NameLe(s[i], s[j])
  }

  /**
   * Puts `x` into `t` after every entry whose key is not greater than its
   * own, scanning from the right as an insertion sort does.
   */
  function Insert(t: seq<User>, x: User): seq<User>
    decreases |t|
  {
    if t == [] then [x]
    else if NameLe(t[|t| - 1], x) then t + [x]
    else Insert(t[..|t| - 1], x) + [t[|t| - 1]]
  }

  /** The stable sort of `s` by `Key`, as a left-to-right insertion sort. */
  function SortByName(s: seq<User>): seq<User>
    decreases |s|
  {
    if s == [] then [] else Insert(SortByName(s[..|s| - 1]), s[|s| - 1])
  }

  /** The entries of `s` whose key is `k`, in the order of `s`. */
  function WithKey(s: seq<User>, k: string): (r: seq<User>)
    decreases |s|
  {
    if s == [] then []
    else WithKey(s[..|s| - 1], k) + (if Key(s[|s| - 1]) == k then [s[|s| - 1]] else [])
  }

  lemma {:induction false} InsertPermutes(t: seq<User>, x: User)
    ensures multiset(Insert(t, x)) == multiset(t) + multiset{x}
    decreases |t|
  {
    if t != [] && !NameLe(t[|t| - 1], x) {
      InsertPermutes(t[..|t| - 1], x);
      assert t == t[..|t| - 1] + [t[|t| - 1]];
    }
  }

  lemma {:induction false} InsertSorted(t: seq<User>, x: User)
    requires SortedByName(t)
    ensures SortedByName(Insert(t, x))
    decreases |t|
  {
    if t == [] {
    } else if NameLe(t[|t| - 1], x) {
      var r := t + [x];
      forall i, j | 0 <= i < j < |r| ensures NameLe(r[i], r[j]) {
        if j == |t| && i < |t| - 1 {
          LexLeTransitive(Key(t[i]), Key(t[|t| - 1]), Key(x));
        }
      }
    } else {
      var last := t[|t| - 1];
      var init := t[..|t| - 1];
      LexLeTotal(Key(last), Key(x));
      InsertSorted(init, x);
      InsertPermutes(init, x);
      var ins := Insert(init, x);
      var r := ins + [last];
      forall i, j | 0 <= i < j < |r| ensures NameLe(r[i], r[j]) {
        if j == |ins| {
          assert ins[i] in multiset(ins);
          assert ins[i] in multiset(init) || ins[i] == x;
          if ins[i] != x {
            var k :| 0 <= k < |init| && init[k] == ins[i];
            assert t[k] == init[k];
          }
        }
      }
    }
  }

  lemma {:induction false} WithKeyAppend(a: seq<User>, b: seq<User>, k: string)
    ensures WithKey(a + b, k) == WithKey(a, k) + WithKey(b, k)
    decreases |b|
  {
    if b == [] {
      assert a + b == a;
    } else {
      var b' := b[..|b| - 1];
      assert (a + b)[..|a + b| - 1] == a + b';
      WithKeyAppend(a, b', k);
    }
  }

  lemma WithKeySingle(x: User, k: string)
    ensures WithKey([x], k) == if Key(x) == k then [x] else []
  {
    assert [x][..0] == [];
  }

  lemma {:induction false} InsertStable(t: seq<User>, x: User, k: string)
    ensures WithKey(Insert(t, x), k) == WithKey(t, k) + WithKey([x], k)
    decreases |t|
  {
    if t == [] {
      WithKeySingle(x, k);
    } else if NameLe(t[|t| - 1], x) {
      WithKeyAppend(t, [x], k);
    } else {
      var last := t[|t| - 1];
      var init := t[..|t| - 1];
      assert Insert(t, x) == Insert(init, x) + [last];
      assert init + [last] == t;
      InsertStable(init, x, k);
      WithKeyAppend(Insert(init, x), [last], k);
      WithKeyAppend(init, [last], k);
      WithKeySingle(x, k);
      WithKeySingle(last, k);
      // the keys of `last` and `x` differ, so at most one of them is kept
      LexLeRefl(Key(x));
      var w := WithKey(init, k);
      if Key(x) == k {
        assert WithKey([last], k) == [];
        assert WithKey(Insert(t, x), k) == w + [x] + [];
        assert WithKey(t, k) == w + [];
      } else {
        assert WithKey([x], k) == [];
        assert WithKey(Insert(t, x), k) == w + [] + WithKey([last], k);
      }
    }
  }

  /** The sorted view is ordered by case-insensitive name. */
  lemma {:induction false} SortByNameSorted(s: seq<User>)
    ensures SortedByName(SortByName(s))
    decreases |s|
  {
    if s != [] {
      SortByNameSorted(s[..|s| - 1]);
      InsertSorted(SortByName(s[..|s| - 1]), s[|s| - 1]);
    }
  }

  /** The sorted view holds exactly the roster's entries. */
  lemma {:induction false} SortByNamePermutes(s: seq<User>)
    ensures multiset(SortByName(s)) == multiset(s)
    decreases |s|
  {
    if s != [] {
      SortByNamePermutes(s[..|s| - 1]);
      InsertPermutes(SortByName(s[..|s| - 1]), s[|s| - 1]);
      assert s == s[..|s| - 1] + [s[|s| - 1]];
    }
  }

  /** Entries with equal keys keep their roster order: the sort is stable. */
  lemma {:induction false} SortByNameStable(s: seq<User>, k: string)
    ensures WithKey(SortByName(s), k) == WithKey(s, k)
    decreases |s|
  {
    if s != [] {
      var init := s[..|s| - 1];
      SortByNameStable(init, k);
      InsertStable(SortByName(init), s[|s| - 1], k);
      WithKeyAppend(init, [s[|s| - 1]], k);
      assert init + [s[|s| - 1]] == s;
    }
  }

  /**
   * Where `Insert` puts `x`: after the prefix `t[..j]` when `t[..j]` ends with a
   * key not greater than that of `x` and every key from `j` on is greater.
   */
  lemma {:induction false} InsertPosition(t: seq<User>, j: nat, x: User)
    requires j <= |t|
    requires j == 0 || NameLe(t[j - 1], x)
    requires forall k :: j <= k < |t| ==> !NameLe(t[k], x)
    ensures Insert(t, x) == t[..j] + [x] + t[j..]
    decreases |t|
  {
    if j < |t| {
      var init := t[..|t| - 1];
      InsertPosition(init, j, x);
      assert init[..j] == t[..j] && init[j..] + [t[|t| - 1]] == t[j..];
    } else {
      assert t[..j] == t && t[j..] == [];
    }
  }

  /**
   * The shifting loop of one insertion step: moves every entry of `a[..i]`
   * right by one, from the right, while its key is greater than that of `x`,
   * and returns the hole `j` it stopped at.
   */
  method ShiftGreater(a: array<User>, i: nat, x: User) returns (j: nat)
    requires i < a.Length
    modifies a
    ensures j <= i
    ensures j == 0 || NameLe(old(a[j - 1]), x)
    ensures forall k :: j <= k < i ==> !NameLe(old(a[k]), x)
    ensures forall k :: 0 <= k < j ==> a[k] == old(a[k])
    ensures forall k :: j < k <= i ==> a[k] == old(a[k - 1])
    ensures forall k :: i < k < a.Length ==> a[k] == old(a[k])
  {
    j := i;
    while j > 0 && !NameLe(a[j - 1], x)
      invariant 0 <= j <= i
      invariant forall k :: 0 <= k < j ==> a[k] == old(a[k])
      invariant forall k :: j < k <= i ==> a[k] == old(a[k - 1])
      invariant forall k :: i < k < a.Length ==> a[k] == old(a[k])
      invariant forall k :: j <= k < i ==> !NameLe(old(a[k]), x)
    {
      a[j] := a[j - 1];
      j := j - 1;
    }
  }

  /**
   * One step of the insertion sort: moves `a[i]` left past every entry of the
   * sorted prefix `a[..i]` whose key is greater than its own.
   */
  method InsertLast(a: array<User>, i: nat)
    requires i < a.Length
    modifies a
    ensures a[..i + 1] == Insert(old(a[..i]), old(a[i]))
    ensures a[i + 1..] == old(a[i + 1..])
  {
    var x := a[i];
    ghost var t := a[..i];
    ghost var rest := a[i + 1..];
    var j := ShiftGreater(a, i, x);
    a[j] := x;
    InsertPosition(t, j, x);
    ShiftedPrefix(a[..], t, j, x);
    assert forall k :: 0 <= k < |rest| ==> a[i + 1 + k] == rest[k];
  }

  /** An array image holding `t[..j]`, then `x`, then `t[j..]` starts with their concatenation. */
  lemma ShiftedPrefix(b: seq<User>, t: seq<User>, j: nat, x: User)
    requires j <= |t| < |b|
    requires forall k :: 0 <= k < j ==> b[k] == t[k]
    requires b[j] == x
    requires forall k :: j < k <= |t| ==> b[k] == t[k - 1]
    ensures b[..|t| + 1] == t[..j] + [x] + t[j..]
  {
  }

  /** Sorting one more entry of `s` inserts it into the sorted shorter prefix. */
  lemma SortByNamePrefix(s: seq<User>, i: nat)
    requires i < |s|
    ensures SortByName(s[..i + 1]) == Insert(SortByName(s[..i]), s[i])
  {
    var p := s[..i + 1];
    assert p[..|p| - 1] == s[..i] && p[|p| - 1] == s[i];
  }

  /**
   * `sort_by` on the local vector of the voters: a stable insertion sort in
   * place, which leaves the array holding `SortByName` of what it held.
   */
  method SortVoters(a: array<User>)
    modifies a
    ensures a[..] == SortByName(old(a[..]))
  {
    ghost var s := a[..];
    var i := 0;
    while i < a.Length
      invariant 0 <= i <= a.Length
      invariant a[..i] == SortByName(s[..i])
      invariant a[i..] == s[i..]
    {
      ghost var before := a[..];
      assert before[..i] == SortByName(s[..i]) && before[i] == s[i];
      assert before[i + 1..] == s[i + 1..];
      InsertLast(a, i);
      SortByNamePrefix(s, i);
      i := i + 1;
    }
    assert s[..a.Length] == s;
  }
}
