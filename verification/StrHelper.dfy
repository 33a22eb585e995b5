/** The string helpers of str_helper.cpp that the demangler uses. */
module StrHelper {
  import opened Prelude

  /** p occurs in s at position i. */
  predicate At(s: string, p: string, i: nat)
  {
    i + |p| <= |s| && s[i..i + |p|] == p
  }

  /** No occurrence of p in s starts from i up to k. */
  ghost predicate NoneWithin(s: string, p: string, i: nat, k: nat)
  {
    forall j | i <= j < k :: !At(s, p, j)
  }

  /** std::string::find: the first position from i on at which p occurs. */
  function Find(s: string, p: string, i: nat): (r: Option<nat>)
    ensures r == None ==> NoneWithin(s, p, i, |s| + 1)
    ensures r.Some? ==> i <= r.value && r.value + |p| <= |s| && At(s, p, r.value) && NoneWithin(s, p, i, r.value)
    decreases |s| - i
  {
    if i > |s| then None else if At(s, p, i) then Some(i) else Find(s, p, i + 1)
  }

  predicate Contains(s: string, p: string)
  {
    Find(s, p, 0).Some?
  }

  // ---------- Replacement ----------

  /** s with the occurrences of oldValue, met in one pass from the left, replaced by newValue. */
  function Replaced(s: string, oldValue: string, newValue: string): string
    requires oldValue != []
  {
    if s == [] then []
    else if At(s, oldValue, 0) then newValue + Replaced(s[|oldValue|..], oldValue, newValue)
    else [s[0]] + Replaced(s[1..], oldValue, newValue)
  }

  predicate NothingShared(a: string, b: string)
  {
    forall c <- a :: c !in b
  }

  /** Number of characters of s that are in chars. */
  function Letters(s: string, chars: string): nat
  {
    if s == [] then 0 else (if s[0] in chars then 1 else 0) + Letters(s[1..], chars)
  }

  lemma {:induction false} LettersConcat(a: string, b: string, chars: string)
    ensures Letters(a + b, chars) == Letters(a, chars) + Letters(b, chars)
  {
    if a == [] {
      assert a + b == b;
    } else {
      assert (a + b)[1..] == a[1..] + b;
      LettersConcat(a[1..], b, chars);
    }
  }

  lemma {:induction false} LettersBounds(a: string, chars: string)
    ensures a != [] && (forall c <- a :: c in chars) ==> Letters(a, chars) > 0
    ensures NothingShared(a, chars) ==> Letters(a, chars) == 0
  {
    if a != [] {
      LettersBounds(a[1..], chars);
      assert a == [a[0]] + a[1..];
    }
  }

  /**
   * The new value makes no new occurrences: it shares no character with the old one, and does not close up what
   * was on both sides of an occurrence of more than one character.
   */
  predicate OnePass(oldValue: string, newValue: string)
  {
    oldValue != [] && NothingShared(newValue, oldValue) && (newValue != [] || |oldValue| == 1)
  }

  lemma OnePassOld(oldValue: string, newValue: string)
    requires OnePass(oldValue, newValue)
    ensures oldValue != []
  {
  }

  /** Where no occurrence starts within a, a is copied. */
  lemma {:induction false} ReplacedSkips(a: string, rest: string, oldValue: string, newValue: string)
    requires oldValue != [] && NoneWithin(a + rest, oldValue, 0, |a|)
    ensures Replaced(a + rest, oldValue, newValue) == a + Replaced(rest, oldValue, newValue)
  {
    if a == [] {
      assert a + rest == rest;
    } else {
      var s := a + rest;
      assert s[1..] == a[1..] + rest;
      forall j | 0 <= j < |a[1..]|
        ensures !At(a[1..] + rest, oldValue, j)
      {
        if At(a[1..] + rest, oldValue, j) {
          assert s[j + 1..j + 1 + |oldValue|] == (a[1..] + rest)[j..j + |oldValue|];
          assert At(s, oldValue, j + 1);
        }
      }
      ReplacedSkips(a[1..], rest, oldValue, newValue);
      assert !At(s, oldValue, 0);
      assert a == [a[0]] + a[1..];
    }
  }

  /** Putting newValue behind a makes no occurrence start in either, if none started in a before. */
  lemma NoneStarts(a: string, newValue: string, b: string, oldValue: string, j: nat)
    requires OnePass(oldValue, newValue)
    requires j < |a + newValue| && (j < |a| ==> !At(a + (oldValue + b), oldValue, j))
    ensures !At((a + newValue) + b, oldValue, j)
  {
    var t := (a + newValue) + b;
    var end := j + |oldValue|;
    if end <= |a| {
      assert t[j..end] == (a + (oldValue + b))[j..end];
    } else if end <= |t| {
      if newValue != [] {
        var k := if j < |a| then |a| else j;
        assert t[j..end][k - j] == t[k] == newValue[k - |a|];
        assert newValue[k - |a|] in newValue && oldValue[k - j] in oldValue;
      }
    }
  }

  /** One replacement of the first occurrence, at pos, leaves the result of the pass as it is. */
  lemma ReplacedOnce(s: string, a: string, b: string, oldValue: string, newValue: string)
    requires OnePass(oldValue, newValue)
    requires s == a + (oldValue + b) && NoneWithin(s, oldValue, 0, |a|)
    ensures Replaced((a + newValue) + b, oldValue, newValue) == Replaced(s, oldValue, newValue)
  {
    hide OnePass, At;
    assert oldValue != [] by { OnePassOld(oldValue, newValue); }
    ReplacedSkips(a, oldValue + b, oldValue, newValue);
    ReplacedFront(oldValue, b, newValue);
    forall j | 0 <= j < |a + newValue|
      ensures !At((a + newValue) + b, oldValue, j)
    {
      NoneStarts(a, newValue, b, oldValue, j);
    }
    ReplacedSkips(a + newValue, b, oldValue, newValue);
    assert a + (newValue + Replaced(b, oldValue, newValue)) == (a + newValue) + Replaced(b, oldValue, newValue);
  }

  lemma ReplacedFront(oldValue: string, b: string, newValue: string)
    requires oldValue != []
    ensures Replaced(oldValue + b, oldValue, newValue) == newValue + Replaced(b, oldValue, newValue)
  {
    assert At(oldValue + b, oldValue, 0) && (oldValue + b)[|oldValue|..] == b;
  }

  lemma FewerLetters(a: string, b: string, oldValue: string, newValue: string)
    requires oldValue != [] && NothingShared(newValue, oldValue)
    ensures Letters((a + newValue) + b, oldValue) < Letters(a + (oldValue + b), oldValue)
  {
    LettersConcat(a, oldValue + b, oldValue);
    LettersConcat(oldValue, b, oldValue);
    LettersConcat(a + newValue, b, oldValue);
    LettersConcat(a, newValue, oldValue);
    LettersBounds(oldValue, oldValue);
    LettersBounds(newValue, oldValue);
  }

  /** s after one turn of the loop: the first occurrence is replaced, if there is one. */
  function Turn(s: string, oldValue: string, newValue: string): (t: string)
    ensures !Contains(s, oldValue) ==> t == s
  {
    match Find(s, oldValue, 0)
    case None => s
    case Some(pos) => s[..pos] + newValue + s[pos + |oldValue|..]
  }

  /**
   * The new value is shorter than the old one, or has no character of it: each turn brings the loop nearer to its
   * end.
   */
  predicate Settles(oldValue: string, newValue: string)
  {
    oldValue != [] && (|newValue| < |oldValue| || NothingShared(newValue, oldValue))
  }

  /** What falls with each turn. */
  function Distance(s: string, oldValue: string, newValue: string): nat
  {
    if |newValue| < |oldValue| then |s| else Letters(s, oldValue)
  }

  lemma TurnFalls(s: string, oldValue: string, newValue: string)
    requires Settles(oldValue, newValue) && Contains(s, oldValue)
    ensures Distance(Turn(s, oldValue, newValue), oldValue, newValue) < Distance(s, oldValue, newValue)
  {
    var pos := Find(s, oldValue, 0).value;
    var a, b := s[..pos], s[pos + |oldValue|..];
    assert s == a + (oldValue + b) && Turn(s, oldValue, newValue) == (a + newValue) + b;
    if |newValue| >= |oldValue| {
      FewerLetters(a, b, oldValue, newValue);
    }
  }

  /** Replacing first occurrences until there is none. */
  ghost function Settled(s: string, oldValue: string, newValue: string): (t: string)
    requires Settles(oldValue, newValue)
    ensures !Contains(t, oldValue)
    decreases Distance(s, oldValue, newValue)
  {
    if !Contains(s, oldValue) then s
    else
      TurnFalls(s, oldValue, newValue);
      Settled(Turn(s, oldValue, newValue), oldValue, newValue)
  }

  /** Where the new value makes no new occurrences, replacing first occurrences comes to one pass from the left. */
  lemma {:induction false} SettledInOnePass(s: string, oldValue: string, newValue: string)
    requires OnePass(oldValue, newValue)
    ensures Settled(s, oldValue, newValue) == Replaced(s, oldValue, newValue)
    decreases Distance(s, oldValue, newValue)
  {
    if Contains(s, oldValue) {
      TurnFalls(s, oldValue, newValue);
      var pos := Find(s, oldValue, 0).value;
      var a, b := s[..pos], s[pos + |oldValue|..];
      assert s == a + (oldValue + b) && Turn(s, oldValue, newValue) == (a + newValue) + b;
      ReplacedOnce(s, a, b, oldValue, newValue);
      SettledInOnePass(Turn(s, oldValue, newValue), oldValue, newValue);
    } else {
      assert s == s + [];
      ReplacedSkips(s, [], oldValue, newValue);
    }
  }

  /** replace_all, which searches from the start after every replacement. */
  method ReplaceAll(s: string, oldValue: string, newValue: string) returns (str: string)
    requires Settles(oldValue, newValue)
    ensures str == Settled(s, oldValue, newValue) && !Contains(str, oldValue)
    ensures OnePass(oldValue, newValue) ==> str == Replaced(s, oldValue, newValue)
  {
    hide Replaced, OnePass, Settles, At, NoneWithin, Distance;
    if OnePass(oldValue, newValue) {
      SettledInOnePass(s, oldValue, newValue);
    }
    str := s;
    while true
      invariant Settled(str, oldValue, newValue) == Settled(s, oldValue, newValue)
      decreases Distance(str, oldValue, newValue)
    {
      var pos := Find(str, oldValue, 0);
      if pos == None {
        break;
      }
      TurnFalls(str, oldValue, newValue);
      str := str[..pos.value] + newValue + str[pos.value + |oldValue|..];
    }
  }

  // ---------- When the loop does not end ----------

  /** s after n turns. */
  function After(s: string, oldValue: string, newValue: string, n: nat): string
    decreases n
  {
    if n == 0 then s else After(Turn(s, oldValue, newValue), oldValue, newValue, n - 1)
  }

  ghost predicate Ends(s: string, oldValue: string, newValue: string)
  {
    exists n :: !Contains(After(s, oldValue, newValue, n), oldValue)
  }

  lemma ContainsAt(s: string, p: string, k: nat)
    requires At(s, p, k)
    ensures Contains(s, p)
  {
  }

  /** A turn puts a new value that holds the old one where an occurrence was. */
  lemma TurnKeeps(s: string, oldValue: string, newValue: string)
    requires Contains(newValue, oldValue) && Contains(s, oldValue)
    ensures Contains(Turn(s, oldValue, newValue), oldValue)
  {
    var pos, k := Find(s, oldValue, 0).value, Find(newValue, oldValue, 0).value;
    var t := Turn(s, oldValue, newValue);
    assert t[pos..pos + |newValue|] == newValue;
    assert t[pos + k..pos + k + |oldValue|] == newValue[k..k + |oldValue|];
    ContainsAt(t, oldValue, pos + k);
  }

  lemma {:induction false} AlwaysThere(s: string, oldValue: string, newValue: string, n: nat)
    requires Contains(newValue, oldValue) && Contains(s, oldValue)
    ensures Contains(After(s, oldValue, newValue, n), oldValue)
    decreases n
  {
    hide Turn, Contains;
    if n > 0 {
      TurnKeeps(s, oldValue, newValue);
      AlwaysThere(Turn(s, oldValue, newValue), oldValue, newValue, n - 1);
    }
  }

  /** With a new value that holds the old one, the loop ends only on texts without the old value. */
  lemma EndsUnlessThere(s: string, oldValue: string, newValue: string)
    requires Contains(newValue, oldValue)
    ensures Ends(s, oldValue, newValue) <==> !Contains(s, oldValue)
  {
    if Contains(s, oldValue) {
      forall n: nat
        ensures Contains(After(s, oldValue, newValue, n), oldValue)
      {
        AlwaysThere(s, oldValue, newValue, n);
      }
    } else {
      assert !Contains(After(s, oldValue, newValue, 0), oldValue);
    }
  }

  /** Mangling underscores in place does not end on a class name that holds one. */
  lemma UnderscoresNeverEnd(s: string)
    ensures Ends(s, "_", "_1") <==> '_' !in s
  {
    assert At("_1", "_", 0);
    EndsUnlessThere(s, "_", "_1");
    if i :| 0 <= i < |s| && s[i] == '_' {
      assert s[i..i + 1] == "_";
      ContainsAt(s, "_", i);
    }
    if Contains(s, "_") {
      var k := Find(s, "_", 0).value;
      assert s[k] == s[k..k + 1][0];
    }
  }

  /** With a new value that is shorter or has no character of the old one, it ends on every text. */
  lemma {:induction false} EndsWhenSettles(s: string, oldValue: string, newValue: string) returns (n: nat)
    requires Settles(oldValue, newValue)
    ensures After(s, oldValue, newValue, n) == Settled(s, oldValue, newValue)
    ensures Ends(s, oldValue, newValue)
    decreases Distance(s, oldValue, newValue)
  {
    n := 0;
    if Contains(s, oldValue) {
      TurnFalls(s, oldValue, newValue);
      var m := EndsWhenSettles(Turn(s, oldValue, newValue), oldValue, newValue);
      n := m + 1;
    }
    assert !Contains(After(s, oldValue, newValue, n), oldValue);
  }

  // ---------- Splitting ----------

  /** The pieces of s from i on, between occurrences of p; nothing follows an occurrence that ends s. */
  function Pieces(s: string, p: string, i: nat): seq<string>
    requires p != []
    decreases |s| - i
  {
    if i >= |s| then []
    else
      match Find(s, p, i)
      case None => [s[i..]]
      case Some(pos) => [s[i..pos]] + Pieces(s, p, pos + |p|)
  }

  function Split(s: string, p: string): seq<string>
    requires p != []
  {
    Pieces(s, p, 0)
  }

  function Join(pieces: seq<string>, p: string): string
  {
    if pieces == [] then [] else if |pieces| == 1 then pieces[0] else pieces[0] + p + Join(pieces[1..], p)
  }

  lemma JoinMore(x: string, pieces: seq<string>, p: string)
    ensures Join([x] + pieces, p) == if pieces == [] then x else x + p + Join(pieces, p)
  {
    assert ([x] + pieces)[1..] == pieces;
  }

  /** s from i on, cut at an occurrence of p. */
  lemma AtCuts(s: string, p: string, i: nat, k: nat)
    requires i <= k && At(s, p, k)
    ensures k + |p| <= |s| && s[i..] == s[i..k] + p + s[k + |p|..]
  {
    assert s[k..k + |p|] == p;
  }

  /** Joining the pieces again gives the text, but for an occurrence that ended it. */
  lemma {:induction false} JoinPieces(s: string, p: string, i: nat)
    requires p != [] && i <= |s|
    ensures var j := Join(Pieces(s, p, i), p); j == s[i..] || j + p == s[i..]
    decreases |s| - i
  {
    hide Find, Join, At, NoneWithin;
    if i == |s| {
      assert Join([], p) == "" by { JoinNone(p); }
    } else if Find(s, p, i).Some? {
      var pos := Find(s, p, i).value;
      AtCuts(s, p, i, pos);
      JoinPieces(s, p, pos + |p|);
      JoinMore(s[i..pos], Pieces(s, p, pos + |p|), p);
    } else {
      JoinMore(s[i..], [], p);
      assert [s[i..]] + [] == [s[i..]];
    }
  }

  lemma JoinNone(p: string)
    ensures Join([], p) == ""
  {
  }

  lemma AtSlice(s: string, p: string, i: nat, n: nat, k: nat)
    requires i <= n <= |s| && At(s[i..n], p, k)
    ensures At(s, p, i + k) && i + k + |p| <= n
  {
    var t := s[i..n];
    assert forall m | 0 <= m < |t| :: t[m] == s[i + m];
    assert s[i + k..i + k + |p|] == t[k..k + |p|];
  }

  /** No piece contains p. */
  lemma {:induction false} PiecesSeparate(s: string, p: string, i: nat)
    requires p != []
    ensures forall x <- Pieces(s, p, i) :: !Contains(x, p)
    decreases |s| - i
  {
    if i < |s| {
      var end := match Find(s, p, i) case None => |s| case Some(pos) => pos;
      var x := s[i..end];
      if Find(s, p, i).Some? {
        PiecesSeparate(s, p, end + |p|);
      } else {
        assert x == s[i..];
      }
      if Contains(x, p) {
        AtSlice(s, p, i, end, Find(x, p, 0).value);
      }
    }
  }

  /** Splitting is undone by joining, but for an occurrence that ends s; and no piece contains p. */
  lemma JoinSplit(s: string, p: string)
    requires p != []
    ensures var j := Join(Split(s, p), p); j == s || j + p == s
    ensures forall x <- Split(s, p) :: !Contains(x, p)
  {
    assert s[0..] == s;
    JoinPieces(s, p, 0);
    PiecesSeparate(s, p, 0);
  }

  lemma {:induction false} FindShifts(s: string, p: string, k: nat, i: nat)
    requires k <= |s|
    ensures Find(s, p, k + i) == match Find(s[k..], p, i) case None => None case Some(n) => Some(k + n)
    decreases |s| - k - i
  {
    hide At, NoneWithin;
    if k + i <= |s| {
      assert At(s[k..], p, i) == At(s, p, k + i) by { AtShifts(s, p, k, i); }
      FindShifts(s, p, k, i + 1);
    }
  }

  lemma AtShifts(s: string, p: string, k: nat, i: nat)
    requires k <= |s|
    ensures At(s[k..], p, i) == At(s, p, k + i)
  {
    if k + i + |p| <= |s| {
      assert s[k..][i..i + |p|] == s[k + i..k + i + |p|];
    }
  }

  lemma {:induction false} PiecesShift(s: string, p: string, k: nat, i: nat)
    requires p != [] && k <= |s|
    ensures Pieces(s, p, k + i) == Pieces(s[k..], p, i)
    decreases |s| - k - i
  {
    hide At, NoneWithin, Find;
    if k + i < |s| {
      FindShifts(s, p, k, i);
      assert s[k + i..] == s[k..][i..];
      if Find(s[k..], p, i).Some? {
        var n := Find(s[k..], p, i).value;
        assert s[k + i..k + n] == s[k..][i..n];
        PiecesShift(s, p, k, n + |p|);
      }
    }
  }

  /** The first piece ends at the first occurrence, and the rest is split behind it; an empty text has no pieces. */
  lemma SplitFirst(a: string, p: string, rest: string)
    requires p != [] && NoneWithin(a + p + rest, p, 0, |a|)
    ensures Split(a + p + rest, p) == [a] + Split(rest, p)
    ensures Split("", p) == [] && (a != "" && !Contains(a, p) ==> Split(a, p) == [a])
  {
    hide Pieces;
    var s := a + p + rest;
    assert s[|a|..|a| + |p|] == p && s[..|a|] == a && s[|a| + |p|..] == rest;
    assert At(s, p, |a|);
    PiecesUnfold(s, p);
    PiecesShift(s, p, |a| + |p|, 0);
    PiecesUnfold("", p);
    PiecesUnfold(a, p);
    assert a[0..] == a;
  }

  lemma PiecesUnfold(s: string, p: string)
    requires p != []
    ensures Pieces(s, p, 0) ==
            if s == "" then []
            else
              match Find(s, p, 0)
              case None => [s[0..]]
              case Some(pos) => [s[0..pos]] + Pieces(s, p, pos + |p|)
  {
  }

  /** string_split */
  method StringSplit(str: string, pattern: string) returns (result: seq<string>)
    requires pattern != []
    ensures result == Split(str, pattern)
  {
    hide Find, At, NoneWithin;
    result := [];
    var size := |str|;
    var i := 0;
    while i < size
      invariant 0 <= i <= size && result + Pieces(str, pattern, i) == Split(str, pattern)
    {
      var pos := Find(str, pattern, i);
      if pos == None {
        result := result + [str[i..]];
        return;
      }
      assert result + ([str[i..pos.value]] + Pieces(str, pattern, pos.value + |pattern|))
        == (result + [str[i..pos.value]]) + Pieces(str, pattern, pos.value + |pattern|);
      result := result + [str[i..pos.value]];
      i := pos.value + |pattern|;
    }
  }
}
