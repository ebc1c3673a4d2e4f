/**
 * The selection part of `SummarizerEngine.generate_summary` in `scraper/summarizer.py`:
 * how many sentences the requested length allows, the executive summary (the lead
 * sentence and the best ranked one, without repeats), the greedy choice of highlights from
 * the ranked sentences, and the reading-time estimate.
 *
 * The ranking itself (TextRank over floating-point similarities) is an input: a sequence of
 * sentences with their original positions, best first.
 */
module Summary {
  import opened Text
  import opened Summarizer
  import Sorting

  /** A ranked sentence and its position in the document. */
  datatype Ranked = Ranked(index: int, sentence: string)

  /** The numbers of executive and highlight sentences for a requested length. */
  datatype Counts = Counts(exec: nat, highlights: nat)

  // ------------------------------------------------------------ length table

  /** `short` and `medium` have their own counts; every other value means `long`. */
  function CountsFor(length: string): (c: Counts)
    ensures length == "short" ==> c == Counts(1, 3)
    ensures length == "medium" ==> c == Counts(2, 5)
    ensures length != "short" && length != "medium" ==> c == Counts(3, 8)
    ensures 1 <= c.exec <= 3 && c.exec < c.highlights
  {
    if length == "short" then Counts(1, 3)
    else if length == "medium" then Counts(2, 5)
    else Counts(3, 8)
  }

  // ------------------------------------------------------------ executive summary

  /** The list before de-duplication: the lead sentence, then the top-ranked one when it
      differs and more than one executive sentence is allowed. */
  function ExecCandidates(lead: string, top: string, execCount: nat): seq<string>
  {
    [lead] + (if top != lead && execCount > 1 then [top] else [])
  }

  /** First occurrences only, in order, skipping what `seen` already holds. */
  function UniqueFrom(xs: seq<string>, seen: set<string>): seq<string>
    decreases |xs|
  {
    if xs == [] then []
    else if xs[0] in seen then UniqueFrom(xs[1..], seen)
    else [xs[0]] + UniqueFrom(xs[1..], seen + {xs[0]})
  }

  /** The de-duplicated list keeps no repeats, keeps every element not in `seen`, and
      drops the others. */
  lemma {:induction false} UniqueFromFacts(xs: seq<string>, seen: set<string>)
    ensures var u := UniqueFrom(xs, seen);
      && (forall i, j :: 0 <= i < j < |u| ==> u[i] != u[j])
      && (forall x :: x in u <==> x in xs && x !in seen)
    decreases |xs|
  {
    if xs != [] {
      var x := xs[0];
      assert forall y :: y in xs <==> y == x || y in xs[1..];
      if x in seen {
        UniqueFromFacts(xs[1..], seen);
      } else {
        UniqueFromFacts(xs[1..], seen + {x});
        var rest := UniqueFrom(xs[1..], seen + {x});
        var u := [x] + rest;
        forall i, j | 0 <= i < j < |u| ensures u[i] != u[j] {
          if i == 0 {
            assert u[j] == rest[j - 1];
            assert u[j] in rest;
          } else {
            assert u[i] == rest[i - 1] && u[j] == rest[j - 1];
          }
        }
      }
    }
  }

  /** A list without repeats is its own de-duplication. */
  lemma {:induction false} UniqueFromDistinct(xs: seq<string>, seen: set<string>)
    requires forall i, j :: 0 <= i < j < |xs| ==> xs[i] != xs[j]
    requires forall x :: x in xs ==> x !in seen
    ensures UniqueFrom(xs, seen) == xs
    decreases |xs|
  {
    if xs != [] {
      var rest := xs[1..];
      assert forall i, j :: 0 <= i < j < |rest| ==> rest[i] == xs[i + 1] && rest[j] == xs[j + 1];
      forall x | x in rest ensures x !in seen + {xs[0]} {
        var k :| 0 <= k < |rest| && rest[k] == x;
        assert xs[k + 1] == x;
      }
      UniqueFromDistinct(rest, seen + {xs[0]});
    }
  }

  /** The de-duplication loop of `generate_summary`. */
  method Dedup(xs: seq<string>) returns (out: seq<string>)
    ensures out == UniqueFrom(xs, {})
  {
    var seen: set<string> := {};
    out := [];
    var i := 0;
    while i < |xs|
      invariant 0 <= i <= |xs|
      invariant out + UniqueFrom(xs[i..], seen) == UniqueFrom(xs, {})
      invariant seen == set x | x in out
    {
      var x := xs[i];
      assert xs[i..][1..] == xs[i + 1..];
      if x !in seen {
        assert (out + [x]) + UniqueFrom(xs[i + 1..], seen + {x}) == out + UniqueFrom(xs[i..], seen);
        out := out + [x];
        seen := seen + {x};
      }
      i := i + 1;
    }
  }

  /** The executive summary: it starts with the lead sentence, has no repeats, and holds
      the top-ranked sentence exactly when that differs from the lead and the length allows
      more than one sentence. */
  method ExecutiveSummary(sentences: seq<string>, ranked: seq<Ranked>, execCount: nat)
    returns (exec: seq<string>)
    requires |sentences| > 0 && |ranked| > 0
    ensures exec == UniqueFrom(ExecCandidates(sentences[0], ranked[0].sentence, execCount), {})
    ensures exec == ExecCandidates(sentences[0], ranked[0].sentence, execCount)
    ensures |exec| >= 1 && exec[0] == sentences[0]
    ensures forall i, j :: 0 <= i < j < |exec| ==> exec[i] != exec[j]
    ensures ranked[0].sentence in exec <==> ranked[0].sentence == sentences[0] || execCount > 1
  {
    var lead := sentences[0];
    var top := ranked[0].sentence;
    var candidates := [lead];
    if top != lead && execCount > 1 {
      candidates := candidates + [top];
    }
    exec := Dedup(candidates);
    UniqueFromDistinct(candidates, {});
  }

  // ------------------------------------------------------------ highlights

  /** The inner check of the highlight loop: `near` (too similar) to something already
      chosen. */
  predicate IsDup(sentence: string, seen: set<string>, near: (string, string) -> bool)
  {
    exists t :: t in seen && near(sentence, t)
  }

  /** The greedy choice: go down the ranking, skip a sentence `near` one already seen,
      take it otherwise, and stop once `room` sentences are taken. The source's relation is
      `TooSimilar`. */
  function Pick(ranked: seq<Ranked>, seen: set<string>, room: nat, near: (string, string) -> bool): seq<Ranked>
    decreases |ranked|
  {
    if ranked == [] || room == 0 then []
    else if IsDup(ranked[0].sentence, seen, near) then Pick(ranked[1..], seen, room, near)
    else [ranked[0]] + Pick(ranked[1..], seen + {ranked[0].sentence}, room - 1, near)
  }

  function Sentences(rs: seq<Ranked>): (ss: seq<string>)
    ensures |ss| == |rs| && forall i :: 0 <= i < |rs| ==> ss[i] == rs[i].sentence
  {
    seq(|rs|, i requires 0 <= i < |rs| => rs[i].sentence)
  }

  function IndexKey(r: Ranked): int
  {
    r.index
  }

  /** `is_dup`: whether any seen sentence is `near` this one; the set iteration order does
      not matter for the answer. */
  method CheckDuplicate(sentence: string, seen: set<string>, near: (string, string) -> bool)
    returns (dup: bool)
    ensures dup <==> IsDup(sentence, seen, near)
  {
    dup := false;
    var rest := seen;
    while rest != {}
      invariant rest <= seen
      invariant !dup
      invariant forall t :: t in seen && t !in rest ==> !near(sentence, t)
      decreases |rest|
    {
      var t :| t in rest;
      if near(sentence, t) {
        dup := true;
        return;
      }
      rest := rest - {t};
    }
  }

  /** The loop of the highlight selection, for any similarity relation. */
  method PickLoop(ranked: seq<Ranked>, seen0: set<string>, count: nat, near: (string, string) -> bool)
    returns (picked: seq<Ranked>)
    ensures picked == Pick(ranked, seen0, count, near)
  {
    picked := [];
    var seen := seen0;
    var i := 0;
    while i < |ranked|
      invariant 0 <= i <= |ranked| && |picked| <= count
      invariant picked + Pick(ranked[i..], seen, count - |picked|, near) == Pick(ranked, seen0, count, near)
    {
      if |picked| >= count {
        break;
      }
      var r := ranked[i];
      var dup := CheckDuplicate(r.sentence, seen, near);
      PickAdvance(picked, ranked, i, seen, count, near);
      if !dup {
        picked := picked + [r];
        seen := seen + {r.sentence};
      }
      i := i + 1;
    }
    if i == |ranked| {
      assert ranked[i..] == [];
    }
  }

  /** The highlight loop of `generate_summary` and the final sort by position. */
  method SelectHighlights(ranked: seq<Ranked>, exec: seq<string>, count: nat)
    returns (highlights: seq<string>)
    ensures highlights == Sentences(Sorting.SortBy(Pick(ranked, (set s | s in exec), count, TooSimilar), IndexKey))
  {
    var picked := PickLoop(ranked, (set s | s in exec), count, TooSimilar);
    var sorted := Sorting.SortBy(picked, IndexKey);
    highlights := Sentences(sorted);
  }

  /** The loop invariant of `PickLoop` carried over one ranked sentence. */
  lemma PickAdvance(picked: seq<Ranked>, ranked: seq<Ranked>, i: nat, seen: set<string>, count: nat,
                    near: (string, string) -> bool)
    requires i < |ranked| && |picked| < count
    ensures var r := ranked[i];
      if IsDup(r.sentence, seen, near) then
        picked + Pick(ranked[i + 1..], seen, count - |picked|, near) == picked + Pick(ranked[i..], seen, count - |picked|, near)
      else
        (picked + [r]) + Pick(ranked[i + 1..], seen + {r.sentence}, count - (|picked| + 1), near)
          == picked + Pick(ranked[i..], seen, count - |picked|, near)
  {
    PickStep(ranked[i..], seen, count - |picked|, near);
    assert ranked[i..][1..] == ranked[i + 1..];
  }

  /** One step of the greedy choice. */
  lemma PickStep(ranked: seq<Ranked>, seen: set<string>, room: nat, near: (string, string) -> bool)
    requires ranked != [] && room > 0
    ensures Pick(ranked, seen, room, near) ==
      if IsDup(ranked[0].sentence, seen, near) then Pick(ranked[1..], seen, room, near)
      else [ranked[0]] + Pick(ranked[1..], seen + {ranked[0].sentence}, room - 1, near)
  {
  }

  /** At most `room` sentences are taken, all from the ranking. */
  lemma {:induction false} PickBounds(ranked: seq<Ranked>, seen: set<string>, room: nat, near: (string, string) -> bool)
    ensures |Pick(ranked, seen, room, near)| <= room
    ensures |Pick(ranked, seen, room, near)| <= |ranked|
    ensures forall r :: r in Pick(ranked, seen, room, near) ==> r in ranked
    decreases |ranked|
  {
    if ranked != [] && room > 0 {
      assert forall r :: r in ranked[1..] ==> r in ranked;
      if IsDup(ranked[0].sentence, seen, near) {
        PickBounds(ranked[1..], seen, room, near);
      } else {
        PickBounds(ranked[1..], seen + {ranked[0].sentence}, room - 1, near);
      }
    }
  }

  /** No element of `p` is `near` a sentence of `seen`, nor one that comes before it. */
  predicate Apart(p: seq<Ranked>, seen: set<string>, near: (string, string) -> bool)
  {
    && (forall i, t :: 0 <= i < |p| && t in seen ==> !near(p[i].sentence, t))
    && (forall i, j :: 0 <= i < j < |p| ==> !near(p[j].sentence, p[i].sentence))
  }

  /** No sentence taken is `near` one seen before it: not one of the starting set, and not
      one taken earlier. */
  lemma {:induction false} PickApart(ranked: seq<Ranked>, seen: set<string>, room: nat, near: (string, string) -> bool)
    ensures Apart(Pick(ranked, seen, room, near), seen, near)
    decreases |ranked|
  {
    if ranked != [] && room > 0 {
      var x := ranked[0];
      if IsDup(x.sentence, seen, near) {
        PickApart(ranked[1..], seen, room, near);
      } else {
        var seen' := seen + {x.sentence};
        var rest := Pick(ranked[1..], seen', room - 1, near);
        PickApart(ranked[1..], seen', room - 1, near);
        ApartCons(x, rest, seen, near);
      }
    }
  }

  lemma ApartCons(x: Ranked, rest: seq<Ranked>, seen: set<string>, near: (string, string) -> bool)
    requires !IsDup(x.sentence, seen, near)
    requires Apart(rest, seen + {x.sentence}, near)
    ensures Apart([x] + rest, seen, near)
  {
    var p := [x] + rest;
    forall i, t | 0 <= i < |p| && t in seen ensures !near(p[i].sentence, t) {
      if i > 0 {
        assert p[i] == rest[i - 1] && t in seen + {x.sentence};
      }
    }
    forall i, j | 0 <= i < j < |p| ensures !near(p[j].sentence, p[i].sentence) {
      assert p[j] == rest[j - 1];
      if i == 0 {
        assert x.sentence in seen + {x.sentence};
      } else {
        assert p[i] == rest[i - 1];
      }
    }
  }

  /** The greedy choice leaves nothing out for no reason: when fewer than `room` sentences
      are taken, every ranked sentence was taken or is `near` a seen or taken one. */
  lemma {:induction false} PickComplete(ranked: seq<Ranked>, seen: set<string>, room: nat, near: (string, string) -> bool)
    requires |Pick(ranked, seen, room, near)| < room
    ensures var p := Pick(ranked, seen, room, near);
      forall r :: r in ranked ==> r in p || IsDup(r.sentence, seen + (set q | q in p :: q.sentence), near)
    decreases |ranked|
  {
    if ranked != [] {
      var x := ranked[0];
      assert forall r :: r in ranked ==> r == x || r in ranked[1..];
      if IsDup(x.sentence, seen, near) {
        PickComplete(ranked[1..], seen, room, near);
        var p := Pick(ranked, seen, room, near);
        var t :| t in seen && near(x.sentence, t);
        assert t in seen + (set q | q in p :: q.sentence);
      } else {
        var seen' := seen + {x.sentence};
        PickComplete(ranked[1..], seen', room - 1, near);
        var rest := Pick(ranked[1..], seen', room - 1, near);
        assert (seen + (set q | q in [x] + rest :: q.sentence)) == seen' + (set q | q in rest :: q.sentence);
      }
    }
  }

  /** Sorting keeps exactly the elements it is given. */
  lemma SortedMembers(p: seq<Ranked>)
    ensures forall a :: a in Sorting.SortBy(p, IndexKey) <==> a in p
  {
    var sorted := Sorting.SortBy(p, IndexKey);
    assert forall a :: a in sorted <==> a in multiset(sorted);
    assert forall a :: a in p <==> a in multiset(p);
  }

  /** What the sorted choice keeps of the greedy one, for a symmetric relation. */
  lemma SortedPickFacts(p: seq<Ranked>, sorted: seq<Ranked>, seen: set<string>, near: (string, string) -> bool)
    requires forall a, b :: near(a, b) == near(b, a)
    requires forall a :: a in sorted <==> a in p
    requires Apart(p, seen, near)
    ensures forall a, e :: a in sorted && e in seen ==> !near(a.sentence, e) && !near(e, a.sentence)
    ensures forall a, b :: a in sorted && b in sorted && a != b ==> !near(a.sentence, b.sentence)
  {
    forall a, e | a in sorted && e in seen ensures !near(a.sentence, e) && !near(e, a.sentence) {
      var i :| 0 <= i < |p| && p[i] == a;
    }
    forall a, b | a in sorted && b in sorted && a != b ensures !near(a.sentence, b.sentence) {
      var i :| 0 <= i < |p| && p[i] == a;
      var j :| 0 <= j < |p| && p[j] == b;
      if i < j {
        assert !near(p[j].sentence, p[i].sentence);
      } else {
        assert !near(p[i].sentence, p[j].sentence);
      }
    }
  }

  /** The highlights of `generate_summary`: at most `count` of them, in document order, none
      too similar to an executive sentence, and none too similar to another with a different
      position. */
  lemma HighlightsFacts(ranked: seq<Ranked>, exec: seq<string>, count: nat)
    ensures var sorted := Sorting.SortBy(Pick(ranked, (set s | s in exec), count, TooSimilar), IndexKey);
      && |Sentences(sorted)| <= count
      && (forall i, j :: 0 <= i < j < |sorted| ==> sorted[i].index <= sorted[j].index)
      && (forall a, e :: a in sorted && e in exec ==> !TooSimilar(a.sentence, e) && !TooSimilar(e, a.sentence))
      && (forall a, b :: a in sorted && b in sorted && a != b ==> !TooSimilar(a.sentence, b.sentence))
  {
    var seen := set s | s in exec;
    var p := Pick(ranked, seen, count, TooSimilar);
    var sorted := Sorting.SortBy(p, IndexKey);
    PickBounds(ranked, seen, count, TooSimilar);
    PickApart(ranked, seen, count, TooSimilar);
    SortedMembers(p);
    forall a, b ensures TooSimilar(a, b) == TooSimilar(b, a) {
      TooSimilarFacts(a, b);
    }
    SortedPickFacts(p, sorted, seen, TooSimilar);
    assert forall e :: e in exec ==> e in seen;
  }

  // ------------------------------------------------------------ statistics

  /** `len(exec_text.split()) + sum(len(s.split()) for s in highlights)`. */
  function SummaryWordCount(execText: string, highlights: seq<string>): nat
    decreases |highlights|
  {
    if highlights == [] then |Words(execText)|
    else SummaryWordCount(execText, highlights[..|highlights| - 1]) + |Words(highlights[|highlights| - 1])|
  }

  /** `max(1, int(words / 200))`: whole minutes at 200 words a minute, at least one. */
  function ReadTime(words: nat): (minutes: nat)
    ensures minutes >= 1
    ensures minutes == 1 ==> words < 400
    ensures minutes > 1 ==> 200 * minutes <= words < 200 * (minutes + 1)
  {
    if words / 200 < 1 then 1 else words / 200
  }

  // ------------------------------------------------------------ the whole selection

  /** The selection steps of `generate_summary` in order, from the sentences, their
      ranking and the requested length. */
  method Outline(sentences: seq<string>, ranked: seq<Ranked>, length: string)
    returns (execText: string, highlights: seq<string>, readTime: nat)
    requires |sentences| > 0 && |ranked| > 0
    ensures var c := CountsFor(length);
      var exec := ExecCandidates(sentences[0], ranked[0].sentence, c.exec);
      && execText == JoinWith(" ", exec)
      && highlights == Sentences(Sorting.SortBy(Pick(ranked, (set s | s in exec), c.highlights, TooSimilar), IndexKey))
      && readTime == ReadTime(SummaryWordCount(execText, highlights))
    ensures StartsWith(execText, sentences[0])
    ensures |highlights| <= CountsFor(length).highlights && readTime >= 1
  {
    var counts := CountsFor(length);
    var exec := ExecutiveSummary(sentences, ranked, counts.exec);
    highlights := SelectHighlights(ranked, exec, counts.highlights);
    execText := JoinWith(" ", exec);
    StartsWithJoin(exec);
    var words := SummaryWordCount(execText, highlights);
    readTime := if words / 200 > 1 then words / 200 else 1;
    HighlightsFacts(ranked, exec, counts.highlights);
  }

  /** A joined list starts with its first element. */
  lemma StartsWithJoin(xs: seq<string>)
    requires xs != []
    ensures StartsWith(JoinWith(" ", xs), xs[0])
  {
    if |xs| > 1 {
      var j := JoinWith(" ", xs);
      assert j == xs[0] + " " + JoinWith(" ", xs[1..]);
      assert j[..|xs[0]|] == xs[0];
    }
  }
}
