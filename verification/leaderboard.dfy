/** The pure parts of src/components/leaderboard/Leaderboard.tsx: the order
    and ranks of the table, the rows shown for a participant, the expand
    button, and the module-level `formatTime`. */
module Leaderboard {
  import opened Wrappers
  import opened Strings
  import NicknameForm

  /** One row as `getLeaderboard` delivers it. */
  datatype Entry = Entry(nickname: string, accuracy: real, totalTime: int, score: real)

  /** A row with the `rank` the component adds. */
  datatype Ranked = Ranked(entry: Entry, rank: nat)

  // ---------------------------------------------------------------------
  // Order and ranks

  /** Places `e` after the rows that score more and before the others. */
  function Insert(e: Entry, sorted: seq<Entry>): (r: seq<Entry>)
    ensures |r| == |sorted| + 1
  {
    if |sorted| == 0 || sorted[0].score <= e.score then [e] + sorted
    else [sorted[0]] + Insert(e, sorted[1..])
  }

  /** `data.sort((a, b) => b.score - a.score)`: an insertion sort into
      descending score, which keeps rows of equal score in their order as
      `Array.prototype.sort` does. */
  function SortByScore(data: seq<Entry>): (r: seq<Entry>)
    ensures |r| == |data|
  {
    if |data| == 0 then [] else Insert(data[0], SortByScore(data[1..]))
  }

  predicate Descending(s: seq<Entry>) {
    forall i, j :: 0 <= i < j < |s| ==> s[i].score >= s[j].score
  }

  /** No row scores more than `x`. */
  predicate AtMost(s: seq<Entry>, x: real) {
    forall i :: 0 <= i < |s| ==> s[i].score <= x
  }

  /** A list is descending when its head bounds a descending tail. */
  lemma DescendingCons(a: Entry, t: seq<Entry>)
    ensures Descending([a] + t) <==> AtMost(t, a.score) && Descending(t)
  {
    var s := [a] + t;
    assert forall i :: 0 <= i < |t| ==> s[i + 1] == t[i];
    if AtMost(t, a.score) && Descending(t) {
      forall i, j | 0 <= i < j < |s|
        ensures s[i].score >= s[j].score
      {
        if i > 0 {
          assert s[i] == t[i - 1];
        }
        assert s[j] == t[j - 1];
      }
    }
    if Descending(s) {
      forall i | 0 <= i < |t|
        ensures t[i].score <= a.score
      {
        assert s[0] == a && s[i + 1] == t[i];
      }
    }
  }

  /** Inserting adds exactly the one row. */
  lemma {:induction false} InsertMultiset(e: Entry, sorted: seq<Entry>)
    ensures multiset(Insert(e, sorted)) == multiset(sorted) + multiset{e}
    decreases |sorted|
  {
    if |sorted| > 0 && sorted[0].score > e.score {
      InsertMultiset(e, sorted[1..]);
      assert sorted == [sorted[0]] + sorted[1..];
    }
  }

  /** A bound on the rows and on the new one bounds the result. */
  lemma {:induction false} InsertAtMost(e: Entry, sorted: seq<Entry>, x: real)
    requires AtMost(sorted, x) && e.score <= x
    ensures AtMost(Insert(e, sorted), x)
    decreases |sorted|
  {
    if |sorted| > 0 && sorted[0].score > e.score {
      InsertAtMost(e, sorted[1..], x);
      var r := Insert(e, sorted);
      assert forall i :: 1 <= i < |r| ==> r[i] == Insert(e, sorted[1..])[i - 1];
    } else {
      var r := Insert(e, sorted);
      assert forall i :: 1 <= i < |r| ==> r[i] == sorted[i - 1];
    }
  }

  /** Inserting into a descending list keeps it descending. */
  lemma {:induction false} InsertDescending(e: Entry, sorted: seq<Entry>)
    requires Descending(sorted)
    ensures Descending(Insert(e, sorted))
    decreases |sorted|
  {
    if |sorted| == 0 || sorted[0].score <= e.score {
      DescendingCons(e, sorted);
    } else {
      var h, t := sorted[0], sorted[1..];
      assert sorted == [h] + t;
      DescendingCons(h, t);
      InsertDescending(e, t);
      InsertAtMost(e, t, h.score);
      DescendingCons(h, Insert(e, t));
    }
  }

  /** The sorted table holds the same rows, in descending score. */
  lemma {:induction false} SortByScoreMeaning(data: seq<Entry>)
    ensures Descending(SortByScore(data))
    ensures multiset(SortByScore(data)) == multiset(data)
    decreases |data|
  {
    if |data| > 0 {
      SortByScoreMeaning(data[1..]);
      InsertDescending(data[0], SortByScore(data[1..]));
      InsertMultiset(data[0], SortByScore(data[1..]));
      assert data == [data[0]] + data[1..];
    }
  }

  /** The rows that score exactly `x`, in their order. */
  function WithScore(s: seq<Entry>, x: real): seq<Entry> {
    if |s| == 0 then [] else (if s[0].score == x then [s[0]] else []) + WithScore(s[1..], x)
  }

  /** Inserting puts the new row before the rows of the same score. */
  lemma {:induction false} InsertWithScore(e: Entry, sorted: seq<Entry>, x: real)
    ensures WithScore(Insert(e, sorted), x) == (if e.score == x then [e] else []) + WithScore(sorted, x)
    decreases |sorted|
  {
    var r := Insert(e, sorted);
    if |sorted| == 0 || sorted[0].score <= e.score {
      assert r[1..] == sorted;
    } else {
      var h, rest := sorted[0], Insert(e, sorted[1..]);
      InsertWithScore(e, sorted[1..], x);
      assert r[0] == h && r[1..] == rest;
      assert WithScore(r, x) == (if h.score == x then [h] else []) + WithScore(rest, x);
      assert WithScore(sorted, x) == (if h.score == x then [h] else []) + WithScore(sorted[1..], x);
      if h.score == x {
        assert e.score != x;
      }
    }
  }

  /** The sort is stable: the rows of any one score keep their order. */
  lemma {:induction false} SortByScoreStable(data: seq<Entry>, x: real)
    ensures WithScore(SortByScore(data), x) == WithScore(data, x)
    decreases |data|
  {
    if |data| > 0 {
      SortByScoreStable(data[1..], x);
      InsertWithScore(data[0], SortByScore(data[1..]), x);
    }
  }

  /** `.map((entry, index) => ({...entry, rank: index + 1}))`. */
  function Ranks(sorted: seq<Entry>): (r: seq<Ranked>)
    ensures |r| == |sorted|
  {
    seq(|sorted|, i requires 0 <= i < |sorted| => Ranked(sorted[i], i + 1))
  }

  /** The table the component keeps: sorted, then ranked. */
  function Board(data: seq<Entry>): seq<Ranked> {
    Ranks(SortByScore(data))
  }

  /** Every row of the table is ranked by its position, counted from one,
      the ranks follow descending score, and the rows are those delivered. */
  lemma BoardMeaning(data: seq<Entry>)
    ensures var board := Board(data);
      && |board| == |data|
      && (forall i :: 0 <= i < |board| ==> board[i].rank == i + 1)
      && (forall i, j :: 0 <= i < j < |board| ==> board[i].entry.score >= board[j].entry.score)
      && multiset(seq(|board|, i requires 0 <= i < |board| => board[i].entry)) == multiset(data)
  {
    var sorted := SortByScore(data);
    SortByScoreMeaning(data);
    var board := Board(data);
    assert seq(|board|, i requires 0 <= i < |board| => board[i].entry) == sorted;
  }

  // ---------------------------------------------------------------------
  // Rows shown

  /** `leaderboard.slice(0, 5)`. */
  function Top5(board: seq<Ranked>): (r: seq<Ranked>)
    ensures |r| <= 5
  {
    if |board| <= 5 then board else board[..5]
  }

  /** `leaderboard.find(entry => entry.nickname === nickname)`. */
  function FindByNickname(board: seq<Ranked>, nickname: string): Option<Ranked> {
    if |board| == 0 then None
    else if board[0].entry.nickname == nickname then Some(board[0])
    else FindByNickname(board[1..], nickname)
  }

  /** A row is found exactly when some row carries the nickname, and then it
      is the first such row. */
  lemma {:induction false} FindByNicknameMeaning(board: seq<Ranked>, nickname: string)
    ensures var r := FindByNickname(board, nickname);
      && (r.None? <==> forall i :: 0 <= i < |board| ==> board[i].entry.nickname != nickname)
      && (r.Some? ==> exists i :: 0 <= i < |board| && board[i] == r.value && FirstWithNickname(board, nickname, i))
    decreases |board|
  {
    if |board| > 0 {
      FindByNicknameMeaning(board[1..], nickname);
      if board[0].entry.nickname == nickname {
        assert FirstWithNickname(board, nickname, 0);
      } else {
        FindLater(board, nickname);
      }
    }
  }

  /** Row `i` is the first with the nickname. */
  ghost predicate FirstWithNickname(board: seq<Ranked>, nickname: string, i: nat)
    requires i < |board|
  {
    board[i].entry.nickname == nickname && forall k :: 0 <= k < i ==> board[k].entry.nickname != nickname
  }

  lemma FindLater(board: seq<Ranked>, nickname: string)
    requires |board| > 0 && board[0].entry.nickname != nickname
    requires var r := FindByNickname(board[1..], nickname);
      r.Some? ==> exists i :: 0 <= i < |board[1..]| && board[1..][i] == r.value && FirstWithNickname(board[1..], nickname, i)
    ensures var r := FindByNickname(board, nickname);
      r.Some? ==> exists i :: 0 <= i < |board| && board[i] == r.value && FirstWithNickname(board, nickname, i)
  {
    var r := FindByNickname(board, nickname);
    if r.Some? {
      var i :| 0 <= i < |board[1..]| && board[1..][i] == r.value && FirstWithNickname(board[1..], nickname, i);
      assert FirstWithNickname(board, nickname, i + 1);
    }
  }

  /** `currentUser`: no nickname (`undefined` or empty) finds nobody. */
  function CurrentUser(board: seq<Ranked>, nickname: Option<string>): Option<Ranked> {
    if nickname.None? || nickname.value == "" then None else FindByNickname(board, nickname.value)
  }

  /** `isCurrentUserInTop5`. */
  predicate InTop5(user: Option<Ranked>) {
    user.Some? && user.value.rank <= 5
  }

  /** `showExpandButton`. */
  predicate ShowExpandButton(board: seq<Ranked>) {
    |board| > 5
  }

  /** `displayedEntries`: the whole table when expanded; otherwise the first
      five rows, followed by the participant's row when it is not among
      them. */
  function Displayed(board: seq<Ranked>, nickname: Option<string>, showAll: bool): seq<Ranked> {
    var user := CurrentUser(board, nickname);
    if showAll then board
    else if InTop5(user) then Top5(board)
    else Top5(board) + (if user.Some? then [user.value] else [])
  }

  /** The position banner: shown for a participant outside the first five
      while the table is collapsed. */
  predicate ShowsPosition(board: seq<Ranked>, nickname: Option<string>, showAll: bool) {
    var user := CurrentUser(board, nickname);
    user.Some? && !InTop5(user) && !showAll
  }

  /** The banner is shown exactly when the collapsed view appends the
      participant's row after the first five, and the row it appends is the
      participant's. */
  lemma ShowsPositionMeaning(board: seq<Ranked>, nickname: Option<string>, showAll: bool)
    ensures ShowsPosition(board, nickname, showAll) <==>
      !showAll && |Displayed(board, nickname, false)| == |Top5(board)| + 1
    ensures ShowsPosition(board, nickname, showAll) ==>
      Displayed(board, nickname, showAll)[|Top5(board)|] == CurrentUser(board, nickname).value
  {
  }

  /** On a ranked table the participant is in the first five exactly when
      their first row is among the first five rows, and the collapsed view
      shows the first five rows and the participant's row, at most six rows
      in all, each a row of the table. The expand button is offered exactly
      when the collapsed view hides rows of other participants. */
  lemma DisplayedMeaning(data: seq<Entry>, nickname: Option<string>)
    ensures var board, user := Board(data), CurrentUser(Board(data), nickname);
      && (InTop5(user) <==> user.Some? && exists i :: 0 <= i < |board| && i < 5 && board[i] == user.value && FirstWithNickname(board, nickname.value, i))
      && (user.Some? ==> user.value in Displayed(board, nickname, false))
      && |Displayed(board, nickname, false)| <= 6
      && Displayed(board, nickname, false)[..Min(5, |board|)] == board[..Min(5, |board|)]
      && (forall r :: r in Displayed(board, nickname, false) ==> r in board)
      && (ShowExpandButton(board) <==> |Top5(board)| < |board|)
  {
    var board := Board(data);
    BoardMeaning(data);
    if nickname.Some? && nickname.value != "" {
      FindByNicknameMeaning(board, nickname.value);
      var user := CurrentUser(board, nickname);
      if user.Some? {
        var i :| 0 <= i < |board| && board[i] == user.value && FirstWithNickname(board, nickname.value, i);
        assert user.value.rank == i + 1;
        FirstUnique(board, nickname.value, i);
        if InTop5(user) {
          assert user.value == Top5(board)[i];
        }
      }
    }
  }

  /** There is only one first row with a nickname. */
  lemma FirstUnique(board: seq<Ranked>, nickname: string, i: nat)
    requires i < |board| && FirstWithNickname(board, nickname, i)
    ensures forall j :: 0 <= j < |board| && FirstWithNickname(board, nickname, j) ==> j == i
  {
  }

  function Min(a: nat, b: nat): nat {
    if a <= b then a else b
  }

  /** Expanded, the table is shown whole. */
  lemma DisplayedExpanded(board: seq<Ranked>, nickname: Option<string>)
    ensures Displayed(board, nickname, true) == board
  {
  }

  // ---------------------------------------------------------------------
  // Times

  /** The module-level `formatTime`: the whole seconds of the time, split
      into minutes and the seconds left over (JavaScript `%`). */
  function FormatTime(ms: int): string {
    var totalSeconds := ms / 1000;
    NicknameForm.Clock(totalSeconds / 60, NicknameForm.JsRem(totalSeconds, 60))
  }

  /** For times that are not negative the leaderboard's and the nickname
      form's renderings agree, `0:00` for zero included. */
  lemma FormatTimesAgree(ms: nat)
    ensures FormatTime(ms) == NicknameForm.FormatTime(Some(ms))
  {
    NicknameForm.SplitSeconds(ms);
    var t := ms / 1000;
    assert t / 60 == ms / 60000 && t % 60 == ms % 60000 / 1000 by {
      SplitMinutes(ms);
    }
    if ms == 0 {
      assert FormatTime(0) == NicknameForm.Clock(0, 0);
    }
  }

  /** Flooring twice is flooring once: whole minutes of whole seconds. */
  lemma SplitMinutes(ms: nat)
    ensures (ms / 1000) / 60 == ms / 60000
    ensures (ms / 1000) % 60 == ms % 60000 / 1000
  {
    var t := ms / 1000;
    var m, s := t / 60, t % 60;
    assert t == 60 * m + s;
    assert ms == 1000 * t + ms % 1000;
    var r := 1000 * s + ms % 1000;
    assert ms == 60000 * m + r && 0 <= r < 60000;
    assert ms / 60000 == m && ms % 60000 == r;
    assert r / 1000 == s;
  }

  /** Just before a whole minute back from zero the two renderings part:
      the nickname form writes `-1:-60`, the leaderboard `-1:00`. */
  lemma FormatTimesDifferBelowZero()
    ensures FormatTime(-59999) != NicknameForm.FormatTime(Some(-59999))
  {
    assert NicknameForm.JsRem(-59999, 60000) == -59999;
    assert -59999 / 1000 == -60;
    assert NicknameForm.FormatTime(Some(-59999)) == NicknameForm.Clock(-1, -60);
    assert FormatTime(-59999) == NicknameForm.Clock(-1, 0);
    assert |IntToString(-60)| == 3 && |IntToString(0)| == 1;
  }
}
