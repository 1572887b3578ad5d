/** The launcher menu: key handling, the typo-tolerant search and the scrolling page. */
module Launcher {

  import opened Common
  import opened EditDistance

  const PAGE_SIZE: int := 10
  const SEARCH_CHARS: nat := 31

  const KEY_UP: nat := 0x00010001
  const KEY_DOWN: nat := 0x00010002
  const KEY_F12: nat := 0x0001002B
  const KEY_ENTER: nat := 0x0000000A
  const KEY_BACKSPACE: nat := 0x00000008

  /** A registry slot: empty, or an application whose name may be missing. */
  datatype Slot = Empty | App(name: Option<string>)

  /** focused is -1 while the menu shows. */
  datatype Menu = Menu(focused: int, selected: int, page: int, search: string)

  /** The distance a slot is ranked by; an empty slot is passed over. */
  function Rank(apps: seq<Slot>, query: string, i: int): nat
    requires 0 <= i < |apps|
  {
    if apps[i].Empty? then NO_DISTANCE else Distance(Some(query), apps[i].name)
  }

  ghost predicate Candidate(apps: seq<Slot>, query: string, i: int) {
    0 <= i < |apps| && Rank(apps, query, i) < NO_DISTANCE
  }

  /** The first nearest application; slot 0 when none has a name. */
  ghost predicate IsBest(apps: seq<Slot>, query: string, best: int) {
    if exists i :: Candidate(apps, query, i) then
      Candidate(apps, query, best) &&
      forall i :: 0 <= i < |apps| ==>
        Rank(apps, query, best) <= Rank(apps, query, i) && (i < best ==> Rank(apps, query, best) < Rank(apps, query, i))
    else best == 0
  }

  /** The selection is determined. */
  lemma BestUnique(apps: seq<Slot>, query: string, a: int, b: int)
    requires IsBest(apps, query, a) && IsBest(apps, query, b)
    ensures a == b
  {
    if exists i :: Candidate(apps, query, i) {
      assert Rank(apps, query, a) <= Rank(apps, query, b) && Rank(apps, query, b) <= Rank(apps, query, a);
    }
  }

  /** A named application is a candidate, whatever is typed. */
  lemma NamedIsCandidate(apps: seq<Slot>, query: string, i: int)
    requires 0 <= i < |apps|
    ensures Candidate(apps, query, i) <==> apps[i].App? && apps[i].name.Some?
  {
    if apps[i].App? { DistanceIsMetric(Some(query), apps[i].name, None); }
  }

  /** Typing a name in full, in any case, selects an application of that name. */
  lemma ExactNameWins(apps: seq<Slot>, query: string, best: int, i: int)
    requires IsBest(apps, query, best) && 0 <= i < |apps|
    requires apps[i].App? && apps[i].name.Some? && Text(apps[i].name.value) == Text(query)
    ensures 0 <= best <= i && apps[best].App? && apps[best].name.Some?
    ensures Text(apps[best].name.value) == Text(query)
  {
    DistanceIsMetric(Some(query), apps[i].name, None);
    assert Rank(apps, query, i) == 0;
    assert Candidate(apps, query, i);
    NamedIsCandidate(apps, query, best);
    DistanceIsMetric(Some(query), apps[best].name, None);
  }

  /** What every reachable state satisfies: the selection is an application and on the visible page. */
  ghost predicate Good(apps: seq<Slot>, m: Menu) {
    && 0 <= m.selected && (m.selected < |apps| || (|apps| == 0 && m.selected == 0))
    && 0 <= m.page <= m.selected < m.page + 10
    && -1 <= m.focused < |apps|
    && |m.search| <= 31
  }

  /** The page that shows the selection, moved as little as possible. */
  function Scrolled(page: int, selected: int): (r: int)
    ensures r <= selected < r + PAGE_SIZE
    ensures page <= selected < page + PAGE_SIZE ==> r == page
    ensures 0 <= page && 0 <= selected ==> 0 <= r
  {
    if selected >= page + PAGE_SIZE then selected - PAGE_SIZE + 1 else if selected < page then selected else page
  }

  /** After a search, selection and page follow the best match. */
  ghost predicate Found(apps: seq<Slot>, m: Menu, search: string, r: Menu) {
    if search == "" || |apps| == 0 then r == m.(search := search)
    else IsBest(apps, search, r.selected) && r == Menu(m.focused, r.selected, Scrolled(m.page, r.selected), search)
  }

  /** wal_dispatch_input as a relation between the states before and after a key. */
  ghost predicate Dispatches(apps: seq<Slot>, m: Menu, key: nat, r: Menu) {
    if m.focused != -1 then r == if key == KEY_F12 then m.(focused := -1, search := "") else m
    else if key == KEY_UP then
      r == if m.selected > 0 then m.(selected := m.selected - 1, page := Scrolled(m.page, m.selected - 1)) else m
    else if key == KEY_DOWN then
      r == if m.selected < |apps| - 1 then m.(selected := m.selected + 1, page := Scrolled(m.page, m.selected + 1))
             else m
    else if key == KEY_ENTER then
      r == if 0 <= m.selected < |apps| then m.(focused := m.selected) else m
    else if key == KEY_BACKSPACE then
      if |m.search| > 0 then Found(apps, m, m.search[..|m.search| - 1], r) else r == m
    else if 32 <= key <= 126 && |m.search| < SEARCH_CHARS then Found(apps, m, m.search + [key as char], r)
    else r == m
  }

  lemma BestInRange(apps: seq<Slot>, query: string, best: int)
    requires IsBest(apps, query, best) && |apps| > 0
    ensures 0 <= best < |apps|
  {}

  /** Every key keeps the selection valid and on the page. */
  lemma DispatchKeepsGood(apps: seq<Slot>, m: Menu, key: nat, r: Menu)
    requires Good(apps, m) && Dispatches(apps, m, key, r)
    ensures Good(apps, r)
  {
    if |apps| > 0 && r.search != "" && IsBest(apps, r.search, r.selected) {
      BestInRange(apps, r.search, r.selected);
    }
  }

  function Start(): Menu {
    Menu(-1, 0, 0, "")
  }

  /** A run of the menu: the states after each key. */
  ghost predicate Run(apps: seq<Slot>, keys: seq<nat>, states: seq<Menu>) {
    && |states| == |keys| + 1 && states[0] == Start()
    && forall k :: 0 <= k < |keys| ==> Dispatches(apps, states[k], keys[k], states[k + 1])
  }

  /** In every reachable state the selection is on the visible page. */
  lemma {:induction false} ReachableGood(apps: seq<Slot>, keys: seq<nat>, states: seq<Menu>, k: nat)
    requires Run(apps, keys, states) && k < |states|
    ensures Good(apps, states[k])
  {
    if k > 0 {
      ReachableGood(apps, keys, states, k - 1);
      assert Dispatches(apps, states[k - 1], keys[k - 1], states[k - 1 + 1]);
      DispatchKeepsGood(apps, states[k - 1], keys[k - 1], states[k]);
    }
  }

  // ---- what the keys do, over whole runs ----

  /** Pressing down k times from the start. */
  lemma {:induction false} DownMoves(apps: seq<Slot>, keys: seq<nat>, states: seq<Menu>, k: nat)
    requires Run(apps, keys, states) && k <= |keys| && |apps| > 0
    requires forall i :: 0 <= i < k ==> keys[i] == 0x00010002
    ensures var selected := Min(k, |apps| - 1); states[k] == Menu(-1, selected, Max(0, selected - 9), "")
  {
    if k > 0 {
      DownMoves(apps, keys, states, k - 1);
      assert Dispatches(apps, states[k - 1], keys[k - 1], states[k - 1 + 1]);
    }
  }

  /** Pressing up k times from a reachable state of the menu. */
  lemma {:induction false} UpMoves(apps: seq<Slot>, keys: seq<nat>, states: seq<Menu>, from: nat, k: nat)
    requires Run(apps, keys, states) && from + k <= |keys| && states[from].focused == -1
    requires forall i :: from <= i < from + k ==> keys[i] == 0x00010001
    ensures var m := states[from];
            var selected := Max(0, m.selected - k);
            states[from + k] == m.(selected := selected, page := Min(m.page, selected))
  {
    ReachableGood(apps, keys, states, from);
    if k > 0 {
      UpMoves(apps, keys, states, from, k - 1);
      assert Dispatches(apps, states[from + k - 1], keys[from + k - 1], states[from + k - 1 + 1]);
    }
  }

  /** Enter opens the selected application, which then gets all keys until F12 closes it and clears the search. */
  lemma EnterAndLeave(apps: seq<Slot>, keys: seq<nat>, states: seq<Menu>, k: nat)
    requires Run(apps, keys, states) && k < |keys|
    ensures states[k].focused == -1 && keys[k] == 0x0000000A && |apps| > 0 ==>
      states[k + 1] == states[k].(focused := states[k].selected)
    ensures states[k].focused != -1 ==>
      states[k + 1] == if keys[k] == 0x0001002B then states[k].(focused := -1, search := "") else states[k]
  {
    ReachableGood(apps, keys, states, k);
    assert Dispatches(apps, states[k], keys[k], states[k + 1]);
  }

  /** The text that up to 31 printable keys spell. */
  function Spelled(keys: seq<nat>): string
    requires forall i :: 0 <= i < |keys| ==> 32 <= keys[i] <= 126
  {
    if keys == [] then "" else Spelled(keys[..|keys| - 1]) + [keys[|keys| - 1] as char]
  }

  /** Up to 31 printable keys spell the search text, and each one selects the best match of what is spelled so far. */
  lemma {:induction false} TypingSpells(apps: seq<Slot>, keys: seq<nat>, states: seq<Menu>, k: nat)
    requires Run(apps, keys, states) && k <= |keys| && k <= 31
    requires forall i :: 0 <= i < k ==> 32 <= keys[i] <= 126
    ensures states[k].focused == -1 && |states[k].search| == k && states[k].search == Spelled(keys[..k])
    ensures k > 0 && |apps| > 0 ==> IsBest(apps, states[k].search, states[k].selected)
  {
    if k > 0 {
      TypingSpells(apps, keys, states, k - 1);
      assert Dispatches(apps, states[k - 1], keys[k - 1], states[k - 1 + 1]);
      TypeOne(apps, states[k - 1], keys[k - 1], states[k]);
      assert keys[..k][..k - 1] == keys[..k - 1];
    }
  }

  lemma TypeOne(apps: seq<Slot>, m: Menu, key: nat, r: Menu)
    requires Dispatches(apps, m, key, r) && m.focused == -1 && 32 <= key <= 126 && |m.search| < 31
    ensures r.focused == -1 && r.search == m.search + [key as char]
    ensures |apps| > 0 ==> IsBest(apps, r.search, r.selected)
  {}

  /** Backspace takes the last character away and selects the best match of the rest; further keys change nothing once
      31 characters stand. */
  lemma SearchKeys(apps: seq<Slot>, keys: seq<nat>, states: seq<Menu>, k: nat)
    requires Run(apps, keys, states) && k < |keys| && states[k].focused == -1
    ensures keys[k] == 0x00000008 && states[k].search == "" ==> states[k + 1] == states[k]
    ensures keys[k] == 0x00000008 && states[k].search != "" ==>
      && states[k + 1].focused == -1 && states[k + 1].search == states[k].search[..|states[k].search| - 1]
      && (|apps| > 0 && states[k + 1].search != "" ==> IsBest(apps, states[k + 1].search, states[k + 1].selected))
      && (states[k + 1].search == "" ==>
            states[k + 1].selected == states[k].selected && states[k + 1].page == states[k].page)
    ensures 32 <= keys[k] <= 126 && |states[k].search| == 31 ==> states[k + 1] == states[k]
  {
    assert Dispatches(apps, states[k], keys[k], states[k + 1]);
  }

  // ---- the code ----

  /** The scan after n slots. */
  ghost predicate Leading(apps: seq<Slot>, query: string, n: int, best: int, minDist: nat) {
    && 0 <= n <= |apps| && 0 <= best < |apps| && minDist <= NO_DISTANCE
    && (if minDist < NO_DISTANCE then best < n && minDist == Rank(apps, query, best) else best == 0)
    && forall k :: 0 <= k < n ==> minDist <= Rank(apps, query, k) && (k < best ==> minDist < Rank(apps, query, k))
  }

  lemma LeadingGrows(apps: seq<Slot>, query: string, i: nat, best: int, minDist: nat, best1: int, minDist1: nat)
    requires Leading(apps, query, i, best, minDist) && i < |apps|
    requires if Rank(apps, query, i) < minDist then best1 == i && minDist1 == Rank(apps, query, i)
             else best1 == best && minDist1 == minDist
    ensures Leading(apps, query, i + 1, best1, minDist1)
  {}

  lemma LeadingDone(apps: seq<Slot>, query: string, best: int, minDist: nat)
    requires Leading(apps, query, |apps|, best, minDist)
    ensures IsBest(apps, query, best)
  {
    if minDist < NO_DISTANCE {
      assert Candidate(apps, query, best);
    } else {
      forall i | 0 <= i < |apps| ensures !Candidate(apps, query, i) {}
    }
  }

  class WindowManager {
    const apps: seq<Slot>
    var focused: int
    var selected: int
    var page: int
    var search: string

    ghost function State(): Menu
      reads this
    {
      Menu(focused, selected, page, search)
    }

    constructor (registered: seq<Slot>)
      ensures apps == registered && State() == Start()
    {
      apps := registered;
      focused, selected, page, search := -1, 0, 0, "";
    }

    /** The scan of search_find_best_match. */
    method FindBest(query: string) returns (best: int)
      requires |apps| > 0
      ensures IsBest(apps, query, best) && 0 <= best < |apps|
    {
      var minDist := NO_DISTANCE;
      best := 0;
      for i := 0 to |apps|
        invariant Leading(apps, query, i, best, minDist)
      {
        ghost var before, beforeDist := best, minDist;
        if apps[i].App? {
          var dist := LevenshteinDistance(Some(query), apps[i].name);
          if dist < minDist { minDist, best := dist, i; }
        }
        LeadingGrows(apps, query, i, before, beforeDist, best, minDist);
      }
      LeadingDone(apps, query, best, minDist);
    }

    /** search_find_best_match */
    method SearchFindBestMatch()
      modifies this`selected, this`page
      ensures Found(apps, old(State()), search, State())
    {
      if |search| == 0 || |apps| == 0 { return; }
      var best := FindBest(search);
      selected := best;
      if selected >= page + PAGE_SIZE {
        page := selected - PAGE_SIZE + 1;
      } else if selected < page {
        page := selected;
      }
    }

    /** wal_dispatch_input */
    method DispatchInput(key: nat)
      requires Good(apps, State())
      modifies this
      ensures Dispatches(apps, old(State()), key, State()) && Good(apps, State())
    {
      ghost var m := State();
      if focused != -1 {
        if key == KEY_F12 { focused, search := -1, ""; }
      } else {
        MenuKey(key);
      }
      DispatchKeepsGood(apps, m, key, State());
    }

    /** The keys of the launcher menu. */
    method MenuKey(key: nat)
      requires Good(apps, State()) && focused == -1
      modifies this
      ensures Dispatches(apps, old(State()), key, State())
    {
      if key == KEY_UP {
        if selected > 0 {
          selected := selected - 1;
          if selected < page { page := selected; }
        }
      } else if key == KEY_DOWN {
        if selected < |apps| - 1 {
          selected := selected + 1;
          if selected >= page + PAGE_SIZE { page := selected - PAGE_SIZE + 1; }
        }
      } else if key == KEY_ENTER {
        if |apps| > 0 && selected >= 0 && selected < |apps| { focused := selected; }
      } else if key == KEY_BACKSPACE {
        if |search| > 0 {
          search := search[..|search| - 1];
          SearchFindBestMatch();
        }
      } else if key >= 32 && key <= 126 && |search| < SEARCH_CHARS {
        search := search + [key as char];
        SearchFindBestMatch();
      }
    }
  }
}
