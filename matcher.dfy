/**
 * The aggregation and ranking of `handleMatch`: every user's items are
 * normalized, a user counts at most once per key, each key keeps the
 * trimmed text of its first item as label, and the records are ranked by
 * count descending, then key ascending.
 *
 * The first half states what the result must be, as functions of the
 * input; the method `Match` computes it the way `handleMatch` does, with a
 * frequency map and a per-user set of seen keys.
 */
module Matcher {
  import opened Text
  import opened Normalizer
  import opened Ranking

  // ---------------------------------------------------------------------
  // What the result is

  /** The non-empty keys of a list of items. */
  function KeySet(key: string -> string, raws: seq<string>): (keys: set<string>)
    ensures "" !in keys
    decreases |raws|
  {
    if raws == [] then {}
    else
      var k := key(raws[|raws| - 1]);
      KeySet(key, raws[..|raws| - 1]) + (if k == "" then {} else {k})
  }

  /** `KeySet` holds exactly the non-empty keys of the items. */
  lemma {:induction false} KeySetIff(key: string -> string, raws: seq<string>, k: string)
    ensures k in KeySet(key, raws) <==>
            k != "" && exists i :: 0 <= i < |raws| && key(raws[i]) == k
    decreases |raws|
  {
    if raws != [] {
      var init := raws[..|raws| - 1];
      KeySetIff(key, init, k);
      assert forall i :: 0 <= i < |init| ==> init[i] == raws[i];
    }
  }

  /** Every item of every user, in the order the engine visits them: user
      by user, and within a user slot by slot. */
  function Entries(users: seq<seq<string>>): (raws: seq<string>)
    decreases |users|
  {
    if users == [] then []
    else Entries(users[..|users| - 1]) + users[|users| - 1]
  }

  /** The number of users with at least one item whose key is `k`. */
  function Holders(key: string -> string, users: seq<seq<string>>, k: string): (n: nat)
    ensures n <= |users|
    decreases |users|
  {
    if users == [] then 0
    else Holders(key, users[..|users| - 1], k) + (if k in KeySet(key, users[|users| - 1]) then 1 else 0)
  }

  /** The first item, in visiting order, whose key is `k`; empty if none. */
  function FirstRaw(key: string -> string, raws: seq<string>, k: string): string
    decreases |raws|
  {
    if raws == [] then ""
    else if key(raws[0]) == k then raws[0]
    else FirstRaw(key, raws[1..], k)
  }

  /** The display label `original || value`: the stored text, or the key
      itself when the stored text is empty. */
  function Label(original: string, value: string): (text: string)
    ensures original != "" ==> text == original
    ensures text == "" <==> original == "" && value == ""
  {
    if original == "" then value else original
  }

  /** The record reported for key `k`: its label is the trimmed text of
      the first item with that key, its count the number of users who
      entered it. */
  function Expected(key: string -> string, users: seq<seq<string>>, k: string): MatchResult {
    MatchResult(k, Label(Trim(FirstRaw(key, Entries(users), k)), k), Holders(key, users, k))
  }

  /** The keys of a result list. */
  function Values(results: seq<MatchResult>): set<string> {
    set i | 0 <= i < |results| :: results[i].value
  }

  /** What the result list of `handleMatch` is: one record per non-empty
      key that occurs, each as `Expected` describes it, ranked. */
  predicate IsRanking(key: string -> string, users: seq<seq<string>>, results: seq<MatchResult>) {
    && Sorted(results)
    && Values(results) == KeySet(key, Entries(users))
    && (forall i :: 0 <= i < |results| ==> results[i] == Expected(key, users, results[i].value))
  }

  // ---------------------------------------------------------------------
  // How the specification functions grow, item by item and user by user

  lemma KeySetSnoc(key: string -> string, raws: seq<string>, x: string)
    ensures KeySet(key, raws + [x]) ==
            KeySet(key, raws) + (if key(x) == "" then {} else {key(x)})
  {
    assert (raws + [x])[..|raws|] == raws;
  }

  lemma {:induction false} KeySetAppend(key: string -> string, a: seq<string>, b: seq<string>)
    ensures KeySet(key, a + b) == KeySet(key, a) + KeySet(key, b)
    decreases |b|
  {
    if b == [] {
      assert a + b == a;
    } else {
      var init := b[..|b| - 1];
      assert a + b == (a + init) + [b[|b| - 1]];
      KeySetSnoc(key, a + init, b[|b| - 1]);
      KeySetSnoc(key, init, b[|b| - 1]);
      assert init + [b[|b| - 1]] == b;
      KeySetAppend(key, a, init);
    }
  }

  lemma EntriesSnoc(users: seq<seq<string>>, u: nat)
    requires u < |users|
    ensures Entries(users[..u + 1]) == Entries(users[..u]) + users[u]
  {
    assert users[..u + 1][..u] == users[..u];
  }

  lemma HoldersSnoc(key: string -> string, users: seq<seq<string>>, u: nat, k: string)
    requires u < |users|
    ensures Holders(key, users[..u + 1], k) ==
            Holders(key, users[..u], k) + (if k in KeySet(key, users[u]) then 1 else 0)
  {
    assert users[..u + 1][..u] == users[..u];
  }

  /** A key occurs among all items exactly when some user entered it. */
  lemma {:induction false} KeySetEntries(key: string -> string, users: seq<seq<string>>, k: string)
    ensures k in KeySet(key, Entries(users)) <==>
            exists u :: 0 <= u < |users| && k in KeySet(key, users[u])
    decreases |users|
  {
    if users != [] {
      var n := |users| - 1;
      var init := users[..n];
      KeySetAppend(key, Entries(init), users[n]);
      KeySetEntries(key, init, k);
      if k in KeySet(key, Entries(init)) {
        var u :| 0 <= u < n && k in KeySet(key, init[u]);
        assert init[u] == users[u];
      } else if k !in KeySet(key, users[n]) {
        forall u | 0 <= u < n ensures k !in KeySet(key, users[u]) {
          assert init[u] == users[u];
        }
      }
    }
  }

  /** A key has a positive count exactly when it occurs. */
  lemma {:induction false} HoldersPositiveIff(key: string -> string, users: seq<seq<string>>, k: string)
    ensures Holders(key, users, k) >= 1 <==> k in KeySet(key, Entries(users))
    decreases |users|
  {
    if users != [] {
      var n := |users| - 1;
      KeySetAppend(key, Entries(users[..n]), users[n]);
      HoldersPositiveIff(key, users[..n], k);
    }
  }

  /** A key's count reaches the number of users exactly when every user
      entered it: the "everyone" case the page singles out. */
  lemma {:induction false} HoldersAllIff(key: string -> string, users: seq<seq<string>>, k: string)
    ensures Holders(key, users, k) == |users| <==>
            forall u :: 0 <= u < |users| ==> k in KeySet(key, users[u])
    decreases |users|
  {
    if users != [] {
      var n := |users| - 1;
      HoldersAllIff(key, users[..n], k);
      assert forall u :: 0 <= u < n ==> users[..n][u] == users[u];
    }
  }

  /** The set of users who entered key `k`. */
  function UsersWith(key: string -> string, users: seq<seq<string>>, k: string): set<nat> {
    set u: nat | u < |users| && k in KeySet(key, users[u])
  }

  /** A user added at the end joins the holders of `k` when they
      entered it. */
  lemma UsersWithSnoc(key: string -> string, users: seq<seq<string>>, k: string)
    requires users != []
    ensures var n := |users| - 1;
      UsersWith(key, users, k) ==
      UsersWith(key, users[..n], k) + (if k in KeySet(key, users[n]) then {n} else {})
  {
    var n := |users| - 1;
    var added := if k in KeySet(key, users[n]) then {n} else {};
    forall u: nat ensures u in UsersWith(key, users, k) <==> u in UsersWith(key, users[..n], k) + added {
      if u < n {
        assert users[..n][u] == users[u];
      }
    }
  }

  /** The count of a key is the number of users who entered it. */
  lemma {:induction false} HoldersCountsUsers(key: string -> string, users: seq<seq<string>>, k: string)
    ensures Holders(key, users, k) == |UsersWith(key, users, k)|
    decreases |users|
  {
    if users != [] {
      var n := |users| - 1;
      HoldersCountsUsers(key, users[..n], k);
      UsersWithSnoc(key, users, k);
      assert n !in UsersWith(key, users[..n], k);
    }
  }

  /** Counts depend only on which keys each user entered. */
  lemma {:induction false} HoldersByKeySets(key: string -> string, users: seq<seq<string>>, other: seq<seq<string>>, k: string)
    requires |users| == |other|
    requires forall u :: 0 <= u < |users| ==> KeySet(key, users[u]) == KeySet(key, other[u])
    ensures Holders(key, users, k) == Holders(key, other, k)
    decreases |users|
  {
    if users != [] {
      var n := |users| - 1;
      HoldersByKeySets(key, users[..n], other[..n], k);
    }
  }

  /** An extra slot repeating one of a user's items changes no count: a
      user contributes at most once per key. */
  lemma DuplicateSlotIgnored(key: string -> string, users: seq<seq<string>>, u: nat, i: nat, k: string)
    requires u < |users| && i < |users[u]|
    ensures Holders(key, users[u := users[u] + [users[u][i]]], k) == Holders(key, users, k)
  {
    var items := users[u];
    KeySetSnoc(key, items, items[i]);
    KeySetIff(key, items, key(items[i]));
    HoldersByKeySets(key, users[u := items + [items[i]]], users, k);
  }

  /** Appending an item never changes the first item of a key that
      already occurs; a key occurring for the first time gets that item. */
  lemma {:induction false} FirstRawSnoc(key: string -> string, raws: seq<string>, x: string, k: string)
    requires k != ""
    ensures FirstRaw(key, raws + [x], k) ==
            if k in KeySet(key, raws) then FirstRaw(key, raws, k)
            else if key(x) == k then x
            else ""
    decreases |raws|
  {
    if raws != [] {
      assert (raws + [x])[1..] == raws[1..] + [x];
      KeySetAppend(key, [raws[0]], raws[1..]);
      assert [raws[0]] + raws[1..] == raws;
      KeySetSnoc(key, [], raws[0]);
      assert [] + [raws[0]] == [raws[0]];
      FirstRawSnoc(key, raws[1..], x, k);
    }
  }

  /** `FirstRaw` is the first item, in visiting order, whose key is `k`. */
  lemma {:induction false} FirstRawIsFirst(key: string -> string, raws: seq<string>, k: string, i: nat)
    requires i < |raws| && key(raws[i]) == k
    requires forall j :: 0 <= j < i ==> key(raws[j]) != k
    ensures FirstRaw(key, raws, k) == raws[i]
    decreases i
  {
    if i > 0 {
      FirstRawIsFirst(key, raws[1..], k, i - 1);
    }
  }

  // ---------------------------------------------------------------------
  // Properties of every ranking

  /** Each record of a ranking has a non-empty key, a count between 1 and
      the number of users that is the number of users who entered the key,
      and a key no other record has. */
  lemma RankingRecord(key: string -> string, users: seq<seq<string>>, results: seq<MatchResult>, i: nat)
    requires IsRanking(key, users, results) && i < |results|
    ensures results[i].value != ""
    ensures 1 <= results[i].count <= |users|
    ensures results[i].count == |UsersWith(key, users, results[i].value)|
    ensures forall j :: 0 <= j < |results| && j != i ==> results[j].value != results[i].value
  {
    var k := results[i].value;
    assert k in Values(results);
    HoldersPositiveIff(key, users, k);
    HoldersCountsUsers(key, users, k);
    forall j | 0 <= j < |results| && j != i ensures results[j].value != k {
      if results[j].value == k {
        assert results[j] == results[i];
        BeforeStrictTotal(results[i], results[j], results[i]);
      }
    }
  }

  /** A key every user entered is reported with a count equal to the
      number of users, and only such a key. */
  lemma RankingEveryone(key: string -> string, users: seq<seq<string>>, results: seq<MatchResult>, i: nat)
    requires IsRanking(key, users, results) && i < |results|
    ensures results[i].count == |users| <==>
            forall u :: 0 <= u < |users| ==> results[i].value in KeySet(key, users[u])
  {
    HoldersAllIff(key, users, results[i].value);
  }

  /** When no item has a non-empty key (in particular with no users at
      all) the ranking is empty. */
  lemma RankingEmpty(key: string -> string, users: seq<seq<string>>, results: seq<MatchResult>)
    requires IsRanking(key, users, results)
    requires forall u, j :: 0 <= u < |users| && 0 <= j < |users[u]| ==> key(users[u][j]) == ""
    ensures results == []
  {
    if results != [] {
      var k := results[0].value;
      assert k in Values(results);
      KeySetEntries(key, users, k);
      var u :| 0 <= u < |users| && k in KeySet(key, users[u]);
      KeySetIff(key, users[u], k);
      assert false;
    }
  }

  /** The ranking is determined by the input: however the records are
      sorted, the result is the same list. */
  lemma RankingUnique(key: string -> string, users: seq<seq<string>>, r1: seq<MatchResult>, r2: seq<MatchResult>)
    requires IsRanking(key, users, r1) && IsRanking(key, users, r2)
    ensures r1 == r2
  {
    forall x ensures x in r1 <==> x in r2 {
      if x in r1 {
        var i :| 0 <= i < |r1| && r1[i] == x;
        assert x.value in Values(r1);
        var j :| 0 <= j < |r2| && r2[j].value == x.value;
      }
      if x in r2 {
        var j :| 0 <= j < |r2| && r2[j] == x;
        assert x.value in Values(r2);
        var i :| 0 <= i < |r1| && r1[i].value == x.value;
      }
    }
    SortedUnique(r1, r2);
  }

  /** A key entered by two different users is reported with a count of
      at least two. */
  lemma RankingSharedKey(key: string -> string, users: seq<seq<string>>, results: seq<MatchResult>,
                         u: nat, v: nat, k: string)
    requires IsRanking(key, users, results)
    requires u < v < |users| && k in KeySet(key, users[u]) && k in KeySet(key, users[v])
    ensures exists r :: 0 <= r < |results| && results[r].value == k && results[r].count >= 2
  {
    KeySetEntries(key, users, k);
    assert k in Values(results);
    var r :| 0 <= r < |results| && results[r].value == k;
    HoldersTwo(key, users, u, v, k);
    assert results[r].count == Holders(key, users, k);
  }

  /** Two users holding a key give it a count of at least two. */
  lemma HoldersTwo(key: string -> string, users: seq<seq<string>>, u: nat, v: nat, k: string)
    requires u < v < |users| && k in KeySet(key, users[u]) && k in KeySet(key, users[v])
    ensures Holders(key, users, k) >= 2
  {
    HoldersCountsUsers(key, users, k);
    assert {u, v} <= UsersWith(key, users, k);
    assert |{u, v}| == 2;
    SubsetCard({u, v}, UsersWith(key, users, k));
  }

  lemma {:induction false} SubsetCard(a: set<nat>, b: set<nat>)
    requires a <= b
    ensures |a| <= |b|
    decreases |b|
  {
    if a != {} {
      var x :| x in a;
      SubsetCard(a - {x}, b - {x});
    }
  }

  /** The first item with a key that occurs has that key. */
  lemma {:induction false} FirstRawHasKey(key: string -> string, raws: seq<string>, k: string)
    requires k in KeySet(key, raws)
    ensures key(FirstRaw(key, raws, k)) == k
    decreases |raws|
  {
    KeySetIff(key, raws, k);
    if key(raws[0]) != k {
      var i :| 0 <= i < |raws| && key(raws[i]) == k;
      assert key(raws[1..][i - 1]) == k;
      KeySetIff(key, raws[1..], k);
      FirstRawHasKey(key, raws[1..], k);
    }
  }

  /** When whitespace normalizes to nothing, as with the JavaScript
      tables, the stored label is never empty, so the fallback to the key
      is never taken: every label is the trimmed first item. */
  lemma RankingLabel(t: Tables, users: seq<seq<string>>, results: seq<MatchResult>, i: nat)
    requires SpacesStayBlank(t)
    requires IsRanking(KeyOf(t), users, results) && i < |results|
    ensures results[i].original == Trim(FirstRaw(KeyOf(t), Entries(users), results[i].value))
    ensures results[i].original != ""
  {
    var k := results[i].value;
    assert k in Values(results);
    var raw := FirstRaw(KeyOf(t), Entries(users), k);
    FirstRawHasKey(KeyOf(t), Entries(users), k);
    assert NormalizeText(t, raw) == k;
    TrimEmptyIff(raw);
    if Trim(raw) == "" {
      BlankNormalizesToEmpty(t, raw);
    }
  }

  // ---------------------------------------------------------------------
  // The engine

  /** `normalizeText` under the tables `t`, as a function value. */
  function KeyOf(t: Tables): string -> string {
    raw => NormalizeText(t, raw)
  }

  /** An entry of the frequency map: how many users entered the key so
      far, and the trimmed text of its first item. */
  datatype Frequency = Frequency(count: nat, original: string)

  /** The counts of the frequency map after visiting the users `done` in
      full and the items `part` of the next user. */
  predicate CountsTallied(key: string -> string, done: seq<seq<string>>, part: seq<string>,
                          frequency: map<string, Frequency>)
  {
    forall k :: k in frequency ==>
      frequency[k].count == Holders(key, done, k) + (if k in KeySet(key, part) then 1 else 0)
  }

  /** Every stored label is the trimmed text of the key's first item. */
  predicate LabelsTallied(key: string -> string, visited: seq<string>, frequency: map<string, Frequency>) {
    forall k :: k in frequency ==> frequency[k].original == Trim(FirstRaw(key, visited, k))
  }

  /** `order` lists the keys of the map once each. */
  predicate ListsKeys(order: seq<string>, frequency: map<string, Frequency>) {
    && (forall i :: 0 <= i < |order| ==> order[i] in frequency)
    && (forall i, j :: 0 <= i < j < |order| ==> order[i] != order[j])
    && (forall k :: k in frequency ==> k in order)
  }

  /** The frequency map after visiting the users `done` in full and the
      items `part` of the next user. `order` lists each of its keys exactly
      once. `Match` extends it the way a JavaScript `Map` records insertion
      order, but the invariant does not pin the order down: the sort that
      follows makes it irrelevant (`SortedUnique`). */
  predicate Tallied(key: string -> string, done: seq<seq<string>>, part: seq<string>,
                    frequency: map<string, Frequency>, order: seq<string>)
  {
    && frequency.Keys == KeySet(key, Entries(done) + part)
    && CountsTallied(key, done, part, frequency)
    && LabelsTallied(key, Entries(done) + part, frequency)
    && ListsKeys(order, frequency)
  }

  /** An item whose key is already in the map changes no label. */
  lemma LabelsKept(key: string -> string, visited: seq<string>, x: string, frequency: map<string, Frequency>)
    requires LabelsTallied(key, visited, frequency)
    requires frequency.Keys == KeySet(key, visited)
    ensures LabelsTallied(key, visited + [x], frequency)
  {
    forall k | k in frequency ensures FirstRaw(key, visited + [x], k) == FirstRaw(key, visited, k) {
      FirstRawSnoc(key, visited, x, k);
    }
  }

  /** Visiting an item grows the set of keys met by the item's key. */
  lemma VisitedSnoc(key: string -> string, done: seq<seq<string>>, part: seq<string>, x: string)
    ensures Entries(done) + (part + [x]) == (Entries(done) + part) + [x]
    ensures KeySet(key, part) <= KeySet(key, Entries(done) + part)
    ensures KeySet(key, Entries(done)) <= KeySet(key, Entries(done) + part)
    ensures KeySet(key, part + [x]) ==
            KeySet(key, part) + (if key(x) == "" then {} else {key(x)})
    ensures KeySet(key, Entries(done) + (part + [x])) ==
            KeySet(key, Entries(done) + part) + (if key(x) == "" then {} else {key(x)})
  {
    assert Entries(done) + (part + [x]) == (Entries(done) + part) + [x];
    KeySetAppend(key, Entries(done), part);
    KeySetSnoc(key, part, x);
    KeySetSnoc(key, Entries(done) + part, x);
  }

  /** Counts after an item that adds no key for this user. */
  lemma CountsSkip(key: string -> string, done: seq<seq<string>>, part: seq<string>, x: string,
                   frequency: map<string, Frequency>)
    requires CountsTallied(key, done, part, frequency)
    requires KeySet(key, part + [x]) == KeySet(key, part)
    ensures CountsTallied(key, done, part + [x], frequency)
  {
  }

  /** Counts after an item whose key this user gives for the first time
      and some earlier user already gave. */
  lemma CountsIncrement(key: string -> string, done: seq<seq<string>>, part: seq<string>, x: string,
                        frequency: map<string, Frequency>, k: string)
    requires CountsTallied(key, done, part, frequency)
    requires k in frequency && k !in KeySet(key, part)
    requires KeySet(key, part + [x]) == KeySet(key, part) + {k}
    ensures CountsTallied(key, done, part + [x], frequency[k := frequency[k].(count := frequency[k].count + 1)])
  {
  }

  /** Counts after an item whose key no user gave before. */
  lemma CountsAdd(key: string -> string, done: seq<seq<string>>, part: seq<string>, x: string,
                  frequency: map<string, Frequency>, k: string, text: string)
    requires CountsTallied(key, done, part, frequency)
    requires k !in KeySet(key, part) && Holders(key, done, k) == 0
    requires KeySet(key, part + [x]) == KeySet(key, part) + {k}
    ensures CountsTallied(key, done, part + [x], frequency[k := Frequency(1, text)])
  {
  }

  /** Changing a count keeps every label. */
  lemma LabelsRecount(key: string -> string, visited: seq<string>, frequency: map<string, Frequency>, k: string, n: nat)
    requires LabelsTallied(key, visited, frequency) && k in frequency
    ensures LabelsTallied(key, visited, frequency[k := frequency[k].(count := n)])
  {
  }

  /** A key met for the first time is labelled with its own item. */
  lemma LabelsAdd(key: string -> string, visited: seq<string>, x: string, frequency: map<string, Frequency>)
    requires LabelsTallied(key, visited, frequency)
    requires frequency.Keys == KeySet(key, visited)
    requires key(x) != "" && key(x) !in frequency
    ensures LabelsTallied(key, visited + [x], frequency[key(x) := Frequency(1, Trim(x))])
  {
    LabelsKept(key, visited, x, frequency);
    FirstRawSnoc(key, visited, x, key(x));
  }

  /** Updating a key already in the map keeps the iteration order. */
  lemma ListsUpdate(order: seq<string>, frequency: map<string, Frequency>, k: string, v: Frequency)
    requires ListsKeys(order, frequency) && k in frequency
    ensures ListsKeys(order, frequency[k := v])
  {
  }

  /** A new key goes to the end of the iteration order. */
  lemma ListsAdd(order: seq<string>, frequency: map<string, Frequency>, k: string, v: Frequency)
    requires ListsKeys(order, frequency) && k !in frequency
    ensures ListsKeys(order + [k], frequency[k := v])
  {
  }

  /** An item with an empty key, or with a key the user already gave,
      leaves the map as it is. */
  lemma TallySkip(key: string -> string, done: seq<seq<string>>, part: seq<string>, x: string,
                  frequency: map<string, Frequency>, order: seq<string>)
    requires Tallied(key, done, part, frequency, order)
    requires key(x) == "" || key(x) in KeySet(key, part)
    ensures Tallied(key, done, part + [x], frequency, order)
  {
    VisitedSnoc(key, done, part, x);
    CountsSkip(key, done, part, x, frequency);
    LabelsKept(key, Entries(done) + part, x, frequency);
  }

  /** A key the user gives for the first time, already in the map, gains
      one; its label stays. */
  lemma TallyCount(key: string -> string, done: seq<seq<string>>, part: seq<string>, x: string,
                   frequency: map<string, Frequency>, order: seq<string>)
    requires Tallied(key, done, part, frequency, order)
    requires key(x) != "" && key(x) !in KeySet(key, part) && key(x) in frequency
    ensures Tallied(key, done, part + [x],
                    frequency[key(x) := frequency[key(x)].(count := frequency[key(x)].count + 1)], order)
  {
    var k := key(x);
    VisitedSnoc(key, done, part, x);
    CountsIncrement(key, done, part, x, frequency, k);
    LabelsKept(key, Entries(done) + part, x, frequency);
    LabelsRecount(key, Entries(done) + (part + [x]), frequency, k, frequency[k].count + 1);
    ListsUpdate(order, frequency, k, frequency[k].(count := frequency[k].count + 1));
  }

  /** A key met for the first time enters the map with count 1 and the
      trimmed item as label, and goes to the end of the iteration order. */
  lemma TallyNew(key: string -> string, done: seq<seq<string>>, part: seq<string>, x: string,
                 frequency: map<string, Frequency>, order: seq<string>)
    requires Tallied(key, done, part, frequency, order)
    requires key(x) != "" && key(x) !in frequency
    ensures Tallied(key, done, part + [x], frequency[key(x) := Frequency(1, Trim(x))], order + [key(x)])
  {
    var k := key(x);
    VisitedSnoc(key, done, part, x);
    HoldersPositiveIff(key, done, k);
    CountsAdd(key, done, part, x, frequency, k, Trim(x));
    LabelsAdd(key, Entries(done) + part, x, frequency);
    ListsAdd(order, frequency, k, Frequency(1, Trim(x)));
  }

  /** After the last item of user `u` the map describes the first `u + 1`
      users in full. */
  lemma TallyUserDone(key: string -> string, users: seq<seq<string>>, u: nat,
                      frequency: map<string, Frequency>, order: seq<string>)
    requires u < |users|
    requires Tallied(key, users[..u], users[u], frequency, order)
    ensures Tallied(key, users[..u + 1], [], frequency, order)
  {
    EntriesSnoc(users, u);
    assert Entries(users[..u + 1]) + [] == Entries(users[..u + 1]);
    forall k | k in frequency ensures frequency[k].count == Holders(key, users[..u + 1], k) {
      HoldersSnoc(key, users, u, k);
    }
  }

  /** `Array.from(frequency.entries()).map(...)`: one record per key, in
      the map's iteration order, with the key as fallback label. */
  function Records(frequency: map<string, Frequency>, order: seq<string>): (records: seq<MatchResult>)
    requires forall i :: 0 <= i < |order| ==> order[i] in frequency
    ensures |records| == |order|
    ensures forall i :: 0 <= i < |order| ==>
      records[i].value == order[i] && records[i].count == frequency[order[i]].count
    ensures forall i :: 0 <= i < |order| && order[i] != "" ==> records[i].original != ""
  {
    seq(|order|, i requires 0 <= i < |order| && order[i] in frequency =>
      MatchResult(order[i], Label(frequency[order[i]].original, order[i]), frequency[order[i]].count))
  }

  /** Once every user is visited, each record is the expected one. */
  lemma RecordsExpected(key: string -> string, users: seq<seq<string>>,
                        frequency: map<string, Frequency>, order: seq<string>, j: nat)
    requires Tallied(key, users, [], frequency, order) && j < |order|
    ensures Records(frequency, order)[j] == Expected(key, users, order[j])
  {
    assert Entries(users) + [] == Entries(users);
    assert KeySet(key, []) == {};
  }

  /** A permutation of the records has the keys of the map. */
  lemma RecordsValues(frequency: map<string, Frequency>, order: seq<string>, results: seq<MatchResult>)
    requires ListsKeys(order, frequency)
    requires multiset(results) == multiset(Records(frequency, order))
    ensures Values(results) == frequency.Keys
  {
    var records := Records(frequency, order);
    forall k ensures k in Values(results) <==> k in frequency {
      if k in frequency {
        var j :| 0 <= j < |order| && order[j] == k;
        assert records[j] in multiset(results);
        var i :| 0 <= i < |results| && results[i] == records[j];
      }
      if k in Values(results) {
        var i :| 0 <= i < |results| && results[i].value == k;
        assert results[i] in multiset(records);
      }
    }
  }

  /** Sorting the records of the complete map gives the ranking. */
  lemma TallyRanked(key: string -> string, users: seq<seq<string>>,
                    frequency: map<string, Frequency>, order: seq<string>, results: seq<MatchResult>)
    requires Tallied(key, users, [], frequency, order)
    requires Sorted(results) && multiset(results) == multiset(Records(frequency, order))
    ensures IsRanking(key, users, results)
  {
    var records := Records(frequency, order);
    assert Entries(users) + [] == Entries(users);
    RecordsValues(frequency, order, results);
    forall i | 0 <= i < |results| ensures results[i] == Expected(key, users, results[i].value) {
      assert results[i] in multiset(records);
      var j :| 0 <= j < |records| && records[j] == results[i];
      RecordsExpected(key, users, frequency, order, j);
    }
  }

  /** The callback of the inner `forEach`: one item of the current user
      updates the user's seen keys and the frequency map. The callbacks
      receive `normalizeText` as the function value `key`. */
  method TallyItem(key: string -> string, done: seq<seq<string>>, part: seq<string>, raw: string,
                   seenForUser: set<string>, frequency: map<string, Frequency>, order: seq<string>)
    returns (seen': set<string>, frequency': map<string, Frequency>, order': seq<string>)
    requires seenForUser == KeySet(key, part)
    requires Tallied(key, done, part, frequency, order)
    ensures seen' == KeySet(key, part + [raw])
    ensures Tallied(key, done, part + [raw], frequency', order')
  {
    seen', frequency', order' := seenForUser, frequency, order;
    var normalized := key(raw);
    KeySetSnoc(key, part, raw);
    if normalized == "" || normalized in seenForUser {
      TallySkip(key, done, part, raw, frequency, order);
      return;
    }
    seen' := seenForUser + {normalized};
    if normalized in frequency {
      TallyCount(key, done, part, raw, frequency, order);
      frequency' := frequency[normalized := frequency[normalized].(count := frequency[normalized].count + 1)];
    } else {
      TallyNew(key, done, part, raw, frequency, order);
      frequency' := frequency[normalized := Frequency(1, Trim(raw))];
      order' := order + [normalized];
    }
  }

  /** The items before slot `j + 1` are those before slot `j` and slot `j`. */
  lemma TalliedPrefix(key: string -> string, done: seq<seq<string>>, items: seq<string>, j: nat,
                      seen: set<string>, frequency: map<string, Frequency>, order: seq<string>)
    requires j < |items|
    requires seen == KeySet(key, items[..j] + [items[j]])
    requires Tallied(key, done, items[..j] + [items[j]], frequency, order)
    ensures seen == KeySet(key, items[..j + 1])
    ensures Tallied(key, done, items[..j + 1], frequency, order)
  {
    assert items[..j] + [items[j]] == items[..j + 1];
  }

  lemma TalliedAll(key: string -> string, done: seq<seq<string>>, items: seq<string>,
                   frequency: map<string, Frequency>, order: seq<string>)
    requires Tallied(key, done, items[..|items|], frequency, order)
    ensures Tallied(key, done, items, frequency, order)
  {
    assert items[..|items|] == items;
  }

  /** The callback of the outer `forEach`: all items of one user, each key
      of the user counted once. */
  method TallyUser(key: string -> string, done: seq<seq<string>>, items: seq<string>,
                   frequency: map<string, Frequency>, order: seq<string>)
    returns (frequency': map<string, Frequency>, order': seq<string>)
    requires Tallied(key, done, [], frequency, order)
    ensures Tallied(key, done, items, frequency', order')
  {
    frequency', order' := frequency, order;
    var seenForUser: set<string> := {};
    for j := 0 to |items|
      invariant seenForUser == KeySet(key, items[..j])
      invariant Tallied(key, done, items[..j], frequency', order')
    {
      seenForUser, frequency', order' :=
        TallyItem(key, done, items[..j], items[j], seenForUser, frequency', order');
      TalliedPrefix(key, done, items, j, seenForUser, frequency', order');
    }
    TalliedAll(key, done, items, frequency', order');
  }

  /** `handleMatch` without the state updates: the ranked records and the
      number of users. */
  method Match(t: Tables, users: seq<seq<string>>) returns (results: seq<MatchResult>, total: nat)
    ensures IsRanking(KeyOf(t), users, results)
    ensures total == |users|
  {
    var frequency: map<string, Frequency> := map[];
    var order: seq<string> := [];
    for u := 0 to |users|
      invariant Tallied(KeyOf(t), users[..u], [], frequency, order)
    {
      frequency, order := TallyUser(KeyOf(t), users[..u], users[u], frequency, order);
      TallyUserDone(KeyOf(t), users, u, frequency, order);
    }
    assert users[..|users|] == users;
    results := SortResults(Records(frequency, order));
    total := |users|;
    TallyRanked(KeyOf(t), users, frequency, order, results);
  }
}
