/**
 * The page's state and its event handlers: setup of the number of
 * participants and items, input of each participant's items in turn, and
 * the summary where the match is computed.
 */
module Session {
  import opened Text
  import opened Normalizer
  import opened Ranking
  import opened Matcher

  const MIN_USERS: int := 2
  const MAX_USERS: int := 5
  const MIN_ITEMS: int := 5
  const MAX_ITEMS: int := 20

  /** The default counts the page starts with and returns to on reset. */
  const DEFAULT_USERS: int := 3
  const DEFAULT_ITEMS: int := 10

  datatype Phase = Setup | Input | Summary

  /** A participant: an id, a display name and one text per item slot. */
  datatype User = User(id: int, name: string, items: seq<string>)

  /** `Math.min(Math.max(x, lo), hi)`. */
  function Clamp(x: int, lo: int, hi: int): (r: int)
    requires lo <= hi
    ensures lo <= r <= hi
    ensures lo <= x <= hi ==> r == x
    ensures x < lo ==> r == lo
    ensures hi < x ==> r == hi
  {
    if x < lo then lo else if hi < x then hi else x
  }

  /** Clamping a clamped value changes nothing. */
  lemma ClampIdempotent(x: int, lo: int, hi: int)
    requires lo <= hi
    ensures Clamp(Clamp(x, lo, hi), lo, hi) == Clamp(x, lo, hi)
  {
  }

  function DigitChar(d: nat): (c: char)
    requires d < 10
    ensures '0' <= c <= '9'
  {
    ['0', '1', '2', '3', '4', '5', '6', '7', '8', '9'][d]
  }

  function DigitValue(c: char): nat {
    if '0' <= c <= '9' then (c as int - '0' as int) as nat else 0
  }

  lemma DigitRoundTrip(d: nat)
    requires d < 10
    ensures DigitValue(DigitChar(d)) == d
  {
  }

  /** A natural number in decimal, as a template literal prints it. */
  function Decimal(n: nat): (s: string)
    ensures |s| >= 1
    ensures forall i :: 0 <= i < |s| ==> '0' <= s[i] <= '9'
    ensures n >= 1 ==> s[0] != '0'
    decreases n
  {
    if n < 10 then [DigitChar(n)] else Decimal(n / 10) + [DigitChar(n % 10)]
  }

  /** The value a string of decimal digits denotes. */
  function DecimalValue(s: string): nat
    decreases |s|
  {
    if s == [] then 0 else DecimalValue(s[..|s| - 1]) * 10 + DigitValue(s[|s| - 1])
  }

  /** `Decimal` writes the number it is given. */
  lemma {:induction false} DecimalRoundTrip(n: nat)
    ensures DecimalValue(Decimal(n)) == n
    decreases n
  {
    if n >= 10 {
      DecimalRoundTrip(n / 10);
      DigitRoundTrip(n % 10);
      var s := Decimal(n);
      assert s == Decimal(n / 10) + [DigitChar(n % 10)];
      assert s[..|s| - 1] == Decimal(n / 10);
    }
  }

  /** The display name of the participant with index `i`: "Osoba "
      followed by the participant's number, counted from 1. */
  function DefaultName(i: nat): (name: string)
    ensures |name| > 6 && name[..6] == "Osoba "
    ensures forall j :: 6 <= j < |name| ==> '0' <= name[j] <= '9'
    ensures name[6] != '0'
    ensures DecimalValue(name[6..]) == i + 1
  {
    DecimalRoundTrip(i + 1);
    var name := "Osoba " + Decimal(i + 1);
    assert name[6..] == Decimal(i + 1);
    name
  }

  /** The participants `handleStart` creates: ids `0` to `n - 1`, default
      names and `m` empty item slots each. */
  function InitialUsers(n: nat, m: nat): (users: seq<User>)
    ensures |users| == n
    ensures forall i :: 0 <= i < n ==> users[i].id == i && |users[i].items| == m
    ensures forall i :: 0 <= i < n ==> users[i].name == DefaultName(i)
    ensures forall i, j :: 0 <= i < n && 0 <= j < m ==> users[i].items[j] == ""
  {
    seq(n, i requires 0 <= i => User(i, DefaultName(i), seq(m, _ => "")))
  }

  /** The update of `handleItemChange`: slot `index` of every participant
      with id `userId` gets `value`. Exactly that slot changes: the list
      keeps its length, ids, names and slot counts, and every other slot
      of every participant keeps its text. */
  function WithItem(users: seq<User>, userId: int, index: int, value: string): (r: seq<User>)
    requires forall u :: 0 <= u < |users| && users[u].id == userId ==> 0 <= index < |users[u].items|
    ensures |r| == |users|
    ensures forall u :: 0 <= u < |r| ==>
      r[u].id == users[u].id && r[u].name == users[u].name && |r[u].items| == |users[u].items|
    ensures forall u :: 0 <= u < |r| && users[u].id == userId ==> r[u].items[index] == value
    ensures forall u, j :: 0 <= u < |r| && 0 <= j < |r[u].items| && (users[u].id != userId || j != index) ==>
      r[u].items[j] == users[u].items[j]
  {
    seq(|users|, u requires 0 <= u < |users| =>
      if users[u].id != userId then users[u]
      else users[u].(items := users[u].items[index := value]))
  }

  /** The item lists of the participants, the input of the match. */
  function ItemLists(users: seq<User>): (lists: seq<seq<string>>)
    ensures |lists| == |users|
    ensures forall u :: 0 <= u < |users| ==> lists[u] == users[u].items
  {
    seq(|users|, u requires 0 <= u < |users| => users[u].items)
  }

  /** Before any item is typed nothing matches: ranking the participants
      `handleStart` creates gives no record. */
  lemma StartedRankingEmpty(t: Tables, n: nat, m: nat, results: seq<MatchResult>)
    requires IsRanking(KeyOf(t), ItemLists(InitialUsers(n, m)), results)
    ensures results == []
  {
    var lists := ItemLists(InitialUsers(n, m));
    assert KeyOf(t)("") == [];
    RankingEmpty(KeyOf(t), lists, results);
  }

  /** Whose turn it is during input: the phase and the current index. */
  datatype Turn = Turn(phase: Phase, index: int)

  /** The turn after a confirmation, with `participants` participants of
      whom `userCount` take part: nothing happens unless a participant is
      entering items; otherwise the next one takes over, or after the last
      one the summary begins. */
  function NextTurn(turn: Turn, userCount: int, participants: int): (next: Turn)
    ensures turn.phase != Input ==> next == turn
    ensures turn.index <= next.index <= turn.index + 1
    ensures next.phase == Input ==> turn.phase == Input
    ensures 0 <= turn.index < userCount ==> next.index < userCount
    ensures turn.phase == Input && next.phase == Summary ==> turn.index >= userCount - 1
    ensures turn.phase == Input && 0 <= turn.index < participants ==> next != turn
  {
    if turn.phase != Input || !(0 <= turn.index < participants) then turn
    else if turn.index < userCount - 1 then Turn(Input, turn.index + 1)
    else Turn(Summary, turn.index)
  }

  /** The turn after `k` confirmations from the start with `n` participants. */
  function Turns(n: int, k: nat): Turn {
    if k == 0 then Turn(Input, 0) else NextTurn(Turns(n, k - 1), n, n)
  }

  /** Every participant gets exactly one turn, in id order, and the
      `n`-th confirmation leads to the summary, which further
      confirmations do not leave. */
  lemma {:induction false} EveryoneGetsATurn(n: int, k: nat)
    requires n >= 1
    ensures k < n ==> Turns(n, k) == Turn(Input, k)
    ensures k >= n ==> Turns(n, k) == Turn(Summary, n - 1)
    decreases k
  {
    if k > 0 {
      EveryoneGetsATurn(n, k - 1);
    }
  }

  /** In setup no participant exists yet; once started, there is one
      participant per counted user, with ids by position, the chosen
      number of slots each, and the turn points at one of them. */
  predicate Consistent(phase: Phase, userCount: int, itemCount: int, users: seq<User>, currentUserIndex: int) {
    match phase
    case Setup =>
      users == [] && currentUserIndex == 0
    case _ =>
      && MIN_USERS <= userCount <= MAX_USERS
      && MIN_ITEMS <= itemCount <= MAX_ITEMS
      && |users| == userCount
      && (forall u :: 0 <= u < |users| ==> users[u].id == u && |users[u].items| == itemCount)
      && 0 <= currentUserIndex < userCount
  }

  /** The state of the page. */
  class MatchSession {
    var userCount: int
    var itemCount: int
    var phase: Phase
    var users: seq<User>
    var results: seq<MatchResult>
    var hasMatched: bool
    var currentUserIndex: int

    predicate Valid()
      reads this
    {
      Consistent(phase, userCount, itemCount, users, currentUserIndex)
    }

    /** The initial state: setup with 3 participants and 10 items. */
    constructor()
      ensures Valid()
      ensures userCount == DEFAULT_USERS && itemCount == DEFAULT_ITEMS && phase == Setup
      ensures users == [] && results == [] && !hasMatched && currentUserIndex == 0
    {
      userCount := DEFAULT_USERS;
      itemCount := DEFAULT_ITEMS;
      phase := Setup;
      users := [];
      results := [];
      hasMatched := false;
      currentUserIndex := 0;
    }

    /** `handleStart`: clamp both counts, create the participants and hand
        the input to the first one. */
    method HandleStart()
      modifies this
      ensures Valid()
      ensures userCount == Clamp(old(userCount), MIN_USERS, MAX_USERS)
      ensures itemCount == Clamp(old(itemCount), MIN_ITEMS, MAX_ITEMS)
      ensures users == InitialUsers(userCount, itemCount)
      ensures results == [] && !hasMatched && currentUserIndex == 0 && phase == Input
    {
      var clampedUsers := Clamp(userCount, MIN_USERS, MAX_USERS);
      var clampedItems := Clamp(itemCount, MIN_ITEMS, MAX_ITEMS);
      userCount := clampedUsers;
      itemCount := clampedItems;
      users := InitialUsers(clampedUsers, clampedItems);
      results := [];
      hasMatched := false;
      currentUserIndex := 0;
      phase := Input;
    }

    /** `handleReset`: back to setup with the default counts. */
    method HandleReset()
      modifies this
      ensures Valid()
      ensures phase == Setup && users == [] && results == [] && !hasMatched && currentUserIndex == 0
      ensures userCount == DEFAULT_USERS && itemCount == DEFAULT_ITEMS
    {
      phase := Setup;
      users := [];
      results := [];
      hasMatched := false;
      currentUserIndex := 0;
      userCount := DEFAULT_USERS;
      itemCount := DEFAULT_ITEMS;
    }

    /** `handleItemChange`: one slot of one participant gets a new text. */
    method HandleItemChange(userId: int, index: int, value: string)
      requires Valid()
      requires forall u :: 0 <= u < |users| && users[u].id == userId ==> 0 <= index < |users[u].items|
      modifies this
      ensures Valid()
      ensures users == WithItem(old(users), userId, index, value)
      ensures userCount == old(userCount) && itemCount == old(itemCount) && phase == old(phase)
      ensures results == old(results) && hasMatched == old(hasMatched)
      ensures currentUserIndex == old(currentUserIndex)
    {
      users := WithItem(users, userId, index, value);
    }

    /** `handleMatch`: rank the items of all participants. */
    method HandleMatch(t: Tables)
      requires Valid()
      modifies this
      ensures Valid()
      ensures IsRanking(KeyOf(t), ItemLists(users), results)
      ensures hasMatched
      ensures users == old(users) && userCount == old(userCount) && itemCount == old(itemCount)
      ensures phase == old(phase) && currentUserIndex == old(currentUserIndex)
    {
      var lists := ItemLists(users);
      var ranked, _ := Match(t, lists);
      results := ranked;
      hasMatched := true;
    }

    /** `handleConfirmAndNext`: while a participant is entering items, pass
        the turn to the next one, or after the last one go to the
        summary. */
    method HandleConfirmAndNext()
      requires Valid()
      modifies this
      ensures Valid()
      ensures Turn(phase, currentUserIndex) ==
              NextTurn(Turn(old(phase), old(currentUserIndex)), old(userCount), |old(users)|)
      ensures users == old(users) && userCount == old(userCount) && itemCount == old(itemCount)
      ensures results == old(results) && hasMatched == old(hasMatched)
    {
      if phase != Input || !(0 <= currentUserIndex < |users|) {
        return;
      }
      if currentUserIndex < userCount - 1 {
        currentUserIndex := currentUserIndex + 1;
      } else {
        phase := Summary;
      }
    }
  }
}
