/**
 * The session engine of the drill: the catalog of loaded words, the play
 * list built from it, the question cursor, the ignore and favourite
 * marks, and the two-state quiz machine (waiting for an answer, waiting
 * for "next"). One `Session` object holds what the page keeps in
 * module-level variables.
 */
module SessionEngine {
  import opened Options
  import opened Collections
  import opened Vocab
  import opened Quiz

  datatype Mode = Spelling | Gender
  datatype Order = Random | Sequential
  datatype GameState = WaitingAnswer | WaitingNext

  /** What the sidebar has checked: nothing, some units (each with what
      fetching its file gave), or the favourites entry, which loads every
      unit of the configuration. */
  datatype Selection = NoUnits | Units(units: seq<Fetched>) | AllFavorites(units: seq<Fetched>)

  // ---------------------------------------------------------------------
  // The play-list rule

  /** The filter of `refreshPlayList`: not ignored, and a noun in gender mode. */
  predicate Keep(w: WordRecord, ignored: set<string>, mode: Mode) {
    w.id !in ignored && (mode == Gender ==> IsNoun(w))
  }

  /** The words of the catalog that can be asked, in catalog order. */
  function Playable(catalog: seq<WordRecord>, ignored: set<string>, mode: Mode): seq<WordRecord> {
    Filter(catalog, (w: WordRecord) => Keep(w, ignored, mode))
  }

  /** A word can be asked exactly when it is in the catalog, is not
      ignored, and is a noun if the mode is gender. */
  lemma PlayableMembers(catalog: seq<WordRecord>, ignored: set<string>, mode: Mode)
    ensures forall w :: w in Playable(catalog, ignored, mode) <==>
      w in catalog && w.id !in ignored && (mode == Gender ==> IsNoun(w))
  {
    FilterMembers(catalog, (w: WordRecord) => Keep(w, ignored, mode));
  }

  /** Any order of the playable words (the shuffled play list) holds the
      same words. */
  lemma ShuffledMembers(p: seq<WordRecord>, catalog: seq<WordRecord>, ignored: set<string>, mode: Mode)
    requires multiset(p) == multiset(Playable(catalog, ignored, mode))
    ensures forall w :: w in p <==> w in catalog && w.id !in ignored && (mode == Gender ==> IsNoun(w))
  {
    PlayableMembers(catalog, ignored, mode);
    forall w ensures w in p <==> w in Playable(catalog, ignored, mode) {
      assert w in p <==> multiset(p)[w] > 0;
      assert w in Playable(catalog, ignored, mode) <==> multiset(Playable(catalog, ignored, mode))[w] > 0;
    }
  }

  /** Rebuilding twice with the same marks and mode changes nothing more. */
  lemma PlayableIdempotent(catalog: seq<WordRecord>, ignored: set<string>, mode: Mode)
    ensures Playable(Playable(catalog, ignored, mode), ignored, mode) == Playable(catalog, ignored, mode)
  {
    FilterIdempotent(catalog, (w: WordRecord) => Keep(w, ignored, mode));
  }

  // ---------------------------------------------------------------------
  // The cursor

  /** The cursor a rebuild leaves, before the first question is drawn.
      `saved` is the index in the stored settings, `None` when there are
      no stored settings; `index` is the cursor before the rebuild and `n`
      the length of the new play list. */
  function RebuildIndex(order: Order, isRestore: bool, saved: Option<nat>, index: nat, n: nat): (r: nat)
    ensures !isRestore ==> r == 0
    ensures order == Random && isRestore ==> r == index
    ensures order == Sequential && isRestore && saved.Some? ==> r == 0 || r < n
    ensures order == Sequential && isRestore && saved.Some? && 0 < saved.value < n ==> r == saved.value
    ensures order == Sequential && isRestore && saved.Some? && !(0 < saved.value < n) ==> r == 0
    ensures order == Sequential && isRestore && saved.None? ==> r == index
  {
    if order == Random then (if isRestore then index else 0)
    else if !isRestore then 0
    else
      match saved
      case None => index
      case Some(k) => if k != 0 && k < n then k else 0
  }

  /** The slot a sequential question is drawn from: the cursor, or 0 once
      the cursor has run past the end of the list. */
  function Slot(index: nat, n: nat): (r: nat)
    ensures n > 0 ==> r < n
    ensures index < n ==> r == index
    ensures index >= n ==> r == 0
  {
    if index >= n then 0 else index
  }

  /** The slots that `k` sequential questions are drawn from, starting at
      cursor `start` on a list of `n` words that does not change. */
  function Served(start: nat, n: nat, k: nat): seq<nat>
    decreases k
  {
    if k == 0 then [] else [Slot(start, n)] + Served(Slot(start, n) + 1, n, k - 1)
  }

  /** The cursor after those `k` questions. */
  function Advanced(start: nat, n: nat, k: nat): nat
    decreases k
  {
    if k == 0 then start else Advanced(Slot(start, n) + 1, n, k - 1)
  }

  /** Until the end of the list, the questions are drawn from consecutive
      slots and the cursor counts them. */
  lemma {:induction false} ServedInOrder(start: nat, n: nat, k: nat)
    requires start + k <= n
    ensures Served(start, n, k) == seq(k, j => start + j)
    ensures Advanced(start, n, k) == start + k
    decreases k
  {
    if k > 0 {
      ServedInOrder(start + 1, n, k - 1);
      assert Served(start, n, k) == [start] + Served(start + 1, n, k - 1);
    }
  }

  /** Drawing `a` and then `b` questions is drawing `a + b`. */
  lemma {:induction false} ServedSplit(start: nat, n: nat, a: nat, b: nat)
    ensures Served(start, n, a + b) == Served(start, n, a) + Served(Advanced(start, n, a), n, b)
    ensures Advanced(start, n, a + b) == Advanced(Advanced(start, n, a), n, b)
    decreases a
  {
    if a > 0 {
      var next := Slot(start, n) + 1;
      ServedSplit(next, n, a - 1, b);
      assert a + b - 1 == (a - 1) + b;
    }
  }

  /** A round from the start visits every slot exactly once, in order;
      the question after it wraps to slot 0; every later round repeats
      the first. */
  lemma RoundVisitsEverySlot(n: nat, k: nat)
    requires n > 0
    ensures Served(0, n, n) == seq(n, j => j)
    ensures Advanced(0, n, n) == n && Slot(n, n) == 0
    ensures Served(0, n, n + k) == Served(0, n, n) + Served(0, n, k)
  {
    ServedInOrder(0, n, n);
    assert seq(n, j => 0 + j) == seq(n, j => j);
    ServedSplit(0, n, n, k);
    SameSlotSameServed(n, 0, n, k);
  }

  /** One more question: the first slot served, then the rest. */
  lemma ServedStep(c: nat, n: nat, m: nat)
    requires m > 0
    ensures Served(c, n, m) == [Slot(c, n)] + Served(Slot(c, n) + 1, n, m - 1)
    ensures Advanced(c, n, m) == Advanced(Slot(c, n) + 1, n, m - 1)
  {
  }

  /** A round of `n` questions from any cursor inside the list, such as a
      restored one, visits every slot exactly once: from the cursor to the
      end, then from slot 0 up to the cursor. */
  lemma RoundFromCursor(c: nat, n: nat)
    requires c < n
    ensures Served(c, n, n) == seq(n - c, j => c + j) + seq(c, j => j)
  {
    ServedSplit(c, n, n - c, c);
    assert (n - c) + c == n;
    ServedInOrder(c, n, n - c);
    SameSlotSameServed(n, 0, n, c);
    ServedInOrder(0, n, c);
    assert seq(c, j => 0 + j) == seq(c, j => j);
  }

  /** Two cursors that draw from the same slot serve the same slots. */
  lemma SameSlotSameServed(i: nat, j: nat, n: nat, k: nat)
    requires Slot(i, n) == Slot(j, n)
    ensures Served(i, n, k) == Served(j, n, k)
  {
  }

  // ---------------------------------------------------------------------
  // Loading

  /** The catalog a load installs, or `None` when the load leaves the
      session untouched: nothing was checked, or favourites were asked
      for and none of the loaded words is a favourite. */
  function Loaded(sel: Selection, favorites: set<string>): Option<seq<WordRecord>> {
    match sel
    case NoUnits => None
    case Units(units) => Some(Concat(UnitWords(units)))
    case AllFavorites(units) =>
      var favs := Filter(Concat(UnitWords(units)), (w: WordRecord) => w.id in favorites);
      if favs == [] then None else Some(favs)
  }

  /** The favourites catalog holds exactly the favourite words of all
      units, and it is missing exactly when there are none of them. */
  lemma FavoritesLoaded(units: seq<Fetched>, favorites: set<string>)
    ensures var all := Concat(UnitWords(units));
      Loaded(AllFavorites(units), favorites).None? <==> (forall w :: w in all ==> w.id !in favorites)
    ensures var all := Concat(UnitWords(units));
      Loaded(AllFavorites(units), favorites).Some? ==>
        forall w :: w in Loaded(AllFavorites(units), favorites).value <==> w in all && w.id in favorites
  {
    var all := Concat(UnitWords(units));
    var favs := Filter(all, (w: WordRecord) => w.id in favorites);
    FilterMembers(all, (w: WordRecord) => w.id in favorites);
    if favs != [] {
      assert favs[0] in favs;
    }
  }

  // ---------------------------------------------------------------------
  // The session

  class Session {
    var activeList: seq<WordRecord>
    var playList: seq<WordRecord>
    var currentMode: Mode
    var currentOrder: Order
    var gameState: GameState
    var currentWord: Option<WordRecord>
    var currentIndex: nat
    var ignoredSet: set<string>
    var favoriteSet: set<string>

    /** The quiz waits for "next" only after a word was judged, so there
        is a current word then. */
    ghost predicate Judged()
      reads this
    {
      gameState == WaitingNext ==> currentWord.Some?
    }

    /** Every word on the play list is in the catalog, and `Judged`. */
    ghost predicate Valid()
      reads this
    {
      (forall w :: w in playList ==> w in activeList) && Judged()
    }

    /** The play list is the playable part of the catalog: in catalog order
        when the order is sequential, in some order when it is random. */
    ghost predicate Rebuilt()
      reads this
    {
      (currentOrder == Sequential ==> playList == Playable(activeList, ignoredSet, currentMode)) &&
      (currentOrder == Random ==> multiset(playList) == multiset(Playable(activeList, ignoredSet, currentMode)))
    }

    /** The outcome of drawing a question from cursor `start`, where
        `oldWord` and `oldState` are the current word and the state before
        it. On an empty list nothing is drawn. Sequential order draws from
        the slot of the cursor and moves the cursor past it; random order
        draws some word of the list and keeps the cursor. */
    ghost predicate Asked(start: nat, oldWord: Option<WordRecord>, oldState: GameState)
      reads this
    {
      if playList == [] then
        currentWord == oldWord && currentIndex == start && gameState == oldState
      else
        gameState == WaitingAnswer && currentWord.Some? &&
        (currentOrder == Sequential ==>
           currentIndex == Slot(start, |playList|) + 1 && 1 <= currentIndex <= |playList| &&
           currentWord.value == playList[currentIndex - 1]) &&
        (currentOrder == Random ==> currentIndex == start && currentWord.value in playList)
    }

    lemma RebuiltIsValid()
      requires Rebuilt()
      ensures forall w :: w in playList ==> w in activeList
      ensures forall w :: w in playList ==> w.id !in ignoredSet && (currentMode == Gender ==> IsNoun(w))
    {
      if currentOrder == Sequential {
        PlayableMembers(activeList, ignoredSet, currentMode);
      } else {
        ShuffledMembers(playList, activeList, ignoredSet, currentMode);
      }
    }

    /** The initial state of the page. */
    constructor ()
      ensures Valid()
      ensures activeList == [] && playList == []
      ensures currentMode == Spelling && currentOrder == Random && gameState == WaitingAnswer
      ensures currentWord == None && currentIndex == 0
      ensures ignoredSet == {} && favoriteSet == {}
    {
      activeList := [];
      playList := [];
      currentMode := Spelling;
      currentOrder := Random;
      gameState := WaitingAnswer;
      currentWord := None;
      currentIndex := 0;
      ignoredSet := {};
      favoriteSet := {};
    }

    /** `nextQuestion`: draw the next word. */
    method NextQuestion()
      requires Valid()
      modifies this
      ensures Valid()
      ensures activeList == old(activeList) && playList == old(playList)
      ensures currentMode == old(currentMode) && currentOrder == old(currentOrder)
      ensures ignoredSet == old(ignoredSet) && favoriteSet == old(favoriteSet)
      ensures Asked(old(currentIndex), old(currentWord), old(gameState))
    {
      if |playList| == 0 {
        return;
      }
      if currentOrder == Random {
        var r :| 0 <= r < |playList|;
        currentWord := Some(playList[r]);
      } else {
        if currentIndex >= |playList| {
          currentIndex := 0;
        }
        currentWord := Some(playList[currentIndex]);
        currentIndex := currentIndex + 1;
      }
      gameState := WaitingAnswer;
    }

    /** `k` questions in a row in sequential order, each drawn by
        `nextQuestion` (the answers in between do not move the cursor).
        Returns the slots drawn and the words asked: they are the slots
        `Served` predicts, and the cursor ends where `Advanced` says. */
    method AskSequentially(k: nat) returns (slots: seq<nat>, words: seq<WordRecord>)
      requires Valid() && currentOrder == Sequential && |playList| > 0
      modifies this
      ensures Valid()
      ensures activeList == old(activeList) && playList == old(playList)
      ensures currentMode == old(currentMode) && currentOrder == old(currentOrder)
      ensures ignoredSet == old(ignoredSet) && favoriteSet == old(favoriteSet)
      ensures slots == Served(old(currentIndex), |playList|, k)
      ensures currentIndex == Advanced(old(currentIndex), |playList|, k)
      ensures |slots| == k == |words| && forall j :: 0 <= j < k ==> slots[j] < |playList| && words[j] == playList[slots[j]]
    {
      ghost var start := currentIndex;
      var n := |playList|;
      slots, words := [], [];
      var i := 0;
      while i < k
        invariant 0 <= i <= k
        invariant Valid() && currentOrder == Sequential && |playList| == n
        invariant activeList == old(activeList) && playList == old(playList)
        invariant currentMode == old(currentMode)
        invariant ignoredSet == old(ignoredSet) && favoriteSet == old(favoriteSet)
        invariant slots + Served(currentIndex, n, k - i) == Served(start, n, k)
        invariant Advanced(currentIndex, n, k - i) == Advanced(start, n, k)
        invariant |slots| == i == |words|
        invariant forall j :: 0 <= j < i ==> slots[j] < n && words[j] == playList[slots[j]]
      {
        ghost var before := currentIndex;
        ServedStep(before, n, k - i);
        NextQuestion();
        var slot := currentIndex - 1;
        Collections.ConcatAssoc(slots, [slot], Served(currentIndex, n, k - i - 1));
        slots := slots + [slot];
        words := words + [currentWord.value];
        i := i + 1;
      }
      assert Served(currentIndex, n, 0) == [];
    }

    /** `refreshPlayList`: rebuild the play list from the catalog, set the
        cursor, and draw a question. */
    method RefreshPlayList(isRestore: bool, saved: Option<nat>)
      requires Judged()
      modifies this
      ensures activeList == old(activeList)
      ensures currentMode == old(currentMode) && currentOrder == old(currentOrder)
      ensures ignoredSet == old(ignoredSet) && favoriteSet == old(favoriteSet)
      ensures Rebuilt() && Valid()
      ensures Asked(RebuildIndex(currentOrder, isRestore, saved, old(currentIndex), |playList|),
                    old(currentWord), old(gameState))
    {
      var filtered := Playable(activeList, ignoredSet, currentMode);
      if currentOrder == Random {
        assert multiset(filtered) == multiset(filtered);
        var shuffled :| multiset(shuffled) == multiset(filtered);
        playList := shuffled;
        if !isRestore {
          currentIndex := 0;
        }
      } else {
        playList := filtered;
        if isRestore {
          match saved {
            case None =>
            case Some(k) =>
              currentIndex := if k != 0 && k < |playList| then k else 0;
          }
        } else {
          currentIndex := 0;
        }
      }
      RebuiltIsValid();
      NextQuestion();
    }

    /** `loadSelectedUnits`: install the catalog of the checked units (or
        of the favourites) and rebuild. Reports whether a catalog was
        installed. */
    method LoadSelectedUnits(sel: Selection, isRestore: bool, saved: Option<nat>) returns (loaded: bool)
      requires Valid()
      modifies this
      ensures Valid()
      ensures loaded <==> Loaded(sel, old(favoriteSet)).Some?
      ensures !loaded ==> unchanged(this)
      ensures loaded ==>
        activeList == Loaded(sel, old(favoriteSet)).value &&
        currentMode == old(currentMode) && currentOrder == old(currentOrder) &&
        ignoredSet == old(ignoredSet) && favoriteSet == old(favoriteSet) &&
        Rebuilt() &&
        Asked(RebuildIndex(currentOrder, isRestore, saved, old(currentIndex), |playList|),
              old(currentWord), old(gameState))
    {
      match sel {
        case NoUnits =>
          return false;
        case Units(units) =>
          var all := FetchUnits(units);
          activeList := all;
        case AllFavorites(units) =>
          var all := FetchUnits(units);
          var favorites := favoriteSet;
          var favs := Filter(all, (w: WordRecord) => w.id in favorites);
          if favs == [] {
            return false;
          }
          activeList := favs;
      }
      RefreshPlayList(isRestore, saved);
      loaded := true;
    }

    /** `toggleFav`: add or remove the current word's id among the
        favourites. */
    method ToggleFav()
      requires Valid()
      modifies this
      ensures Valid()
      ensures currentWord.None? ==> unchanged(this)
      ensures currentWord.Some? ==> favoriteSet == Flip(old(favoriteSet), currentWord.value.id)
      ensures activeList == old(activeList) && playList == old(playList)
      ensures currentMode == old(currentMode) && currentOrder == old(currentOrder)
      ensures gameState == old(gameState) && currentWord == old(currentWord) && currentIndex == old(currentIndex)
      ensures ignoredSet == old(ignoredSet)
    {
      if currentWord.None? {
        return;
      }
      favoriteSet := Flip(favoriteSet, currentWord.value.id);
    }

    /** `toggleIgnore`: add or remove the current word's id among the
        ignored ones. The play list is left as it is until the next
        rebuild. */
    method ToggleIgnore()
      requires Valid()
      modifies this
      ensures Valid()
      ensures currentWord.None? ==> unchanged(this)
      ensures currentWord.Some? ==> ignoredSet == Flip(old(ignoredSet), currentWord.value.id)
      ensures activeList == old(activeList) && playList == old(playList)
      ensures currentMode == old(currentMode) && currentOrder == old(currentOrder)
      ensures gameState == old(gameState) && currentWord == old(currentWord) && currentIndex == old(currentIndex)
      ensures favoriteSet == old(favoriteSet)
    {
      if currentWord.None? {
        return;
      }
      ignoredSet := Flip(ignoredSet, currentWord.value.id);
    }

    /** `resetIgnored`: once confirmed, forget every ignore mark and reload
        the checked units afresh. */
    method ResetIgnored(confirmed: bool, sel: Selection) returns (loaded: bool)
      requires Valid()
      modifies this
      ensures Valid()
      ensures !confirmed ==> !loaded && unchanged(this)
      ensures confirmed ==> ignoredSet == {}
      ensures confirmed ==> (loaded <==> Loaded(sel, old(favoriteSet)).Some?)
      ensures favoriteSet == old(favoriteSet)
      ensures currentMode == old(currentMode) && currentOrder == old(currentOrder)
      ensures !loaded ==>
        activeList == old(activeList) && playList == old(playList) &&
        gameState == old(gameState) && currentWord == old(currentWord) && currentIndex == old(currentIndex)
      ensures loaded ==>
        activeList == Loaded(sel, old(favoriteSet)).value && Rebuilt() &&
        Asked(0, old(currentWord), old(gameState))
    {
      if !confirmed {
        return false;
      }
      ignoredSet := {};
      loaded := LoadSelectedUnits(sel, false, None);
    }

    /** `switchMode`: change the quiz mode, and rebuild when asked to and
        there is a catalog. */
    method SwitchMode(mode: Mode, refresh: bool)
      requires Valid()
      modifies this
      ensures Valid()
      ensures currentMode == mode
      ensures activeList == old(activeList) && currentOrder == old(currentOrder)
      ensures ignoredSet == old(ignoredSet) && favoriteSet == old(favoriteSet)
      ensures !(refresh && activeList != []) ==>
        playList == old(playList) && gameState == old(gameState) &&
        currentWord == old(currentWord) && currentIndex == old(currentIndex)
      ensures refresh && activeList != [] ==>
        Rebuilt() && Asked(0, old(currentWord), old(gameState))
    {
      currentMode := mode;
      if refresh && |activeList| > 0 {
        RefreshPlayList(false, None);
      }
    }

    /** `changeOrder`: change the order and rebuild. */
    method ChangeOrder(order: Order)
      requires Valid()
      modifies this
      ensures Valid()
      ensures currentOrder == order
      ensures activeList == old(activeList) && currentMode == old(currentMode)
      ensures ignoredSet == old(ignoredSet) && favoriteSet == old(favoriteSet)
      ensures Rebuilt() && Asked(0, old(currentWord), old(gameState))
    {
      currentOrder := order;
      RefreshPlayList(false, None);
    }

    /** `showResult`, as far as the session is concerned: the quiz now
        waits for "next". */
    method ShowResult()
      requires Valid() && currentWord.Some?
      modifies this
      ensures Valid()
      ensures gameState == WaitingNext
      ensures activeList == old(activeList) && playList == old(playList)
      ensures currentMode == old(currentMode) && currentOrder == old(currentOrder)
      ensures currentWord == old(currentWord) && currentIndex == old(currentIndex)
      ensures ignoredSet == old(ignoredSet) && favoriteSet == old(favoriteSet)
    {
      gameState := WaitingNext;
    }

    /** `checkGender`: judge the chosen article. Only while an answer is
        awaited and a word is shown; the verdict is returned. */
    method CheckGender(answer: string) returns (outcome: Option<bool>)
      requires Valid()
      modifies this
      ensures Valid()
      ensures outcome.None? <==> old(gameState) != WaitingAnswer || old(currentWord).None?
      ensures outcome.None? ==> unchanged(this)
      ensures outcome.Some? ==>
        currentWord.Some? && outcome.value == GenderCorrect(answer, currentWord.value) &&
        gameState == WaitingNext
      ensures activeList == old(activeList) && playList == old(playList)
      ensures currentMode == old(currentMode) && currentOrder == old(currentOrder)
      ensures currentWord == old(currentWord) && currentIndex == old(currentIndex)
      ensures ignoredSet == old(ignoredSet) && favoriteSet == old(favoriteSet)
    {
      if gameState != WaitingAnswer || currentWord.None? {
        return None;
      }
      var ok := GenderCorrect(answer, currentWord.value);
      ShowResult();
      outcome := Some(ok);
    }

    /** `submitSpelling`: judge the typed answer. Only while an answer is
        awaited and a word is shown; the verdict is returned. */
    method SubmitSpelling(input: string) returns (outcome: Option<bool>)
      requires Valid()
      modifies this
      ensures Valid()
      ensures outcome.None? <==> old(gameState) != WaitingAnswer || old(currentWord).None?
      ensures outcome.None? ==> unchanged(this)
      ensures outcome.Some? ==>
        currentWord.Some? && outcome.value == SpellingCorrect(input, currentWord.value) &&
        gameState == WaitingNext
      ensures activeList == old(activeList) && playList == old(playList)
      ensures currentMode == old(currentMode) && currentOrder == old(currentOrder)
      ensures currentWord == old(currentWord) && currentIndex == old(currentIndex)
      ensures ignoredSet == old(ignoredSet) && favoriteSet == old(favoriteSet)
    {
      if gameState != WaitingAnswer || currentWord.None? {
        return None;
      }
      var ok := SpellingCorrect(input, currentWord.value);
      ShowResult();
      outcome := Some(ok);
    }
  }
}
