/** internal/cass/match.go: matching GitHub names to Canvas students. Names are compared through a normal form,
    here any function from names to strings; NameNormal.NormalizeName is the one the program uses. */
module NameMatch {
  import opened Order
  import opened Text
  import NameNormal

  datatype Student = Student(canvasID: int, name: string)

  datatype Candidate = Candidate(student: Student, score: int)

  datatype Pair = Pair(ghName: string, student: Student)

  type Normal = string -> string

  // ---- Scores ----

  function TokenSet(tokens: seq<string>): set<string> { set i | 0 <= i < |tokens| :: tokens[i] }

  /** 100 for equal normalized names, at most 90 for a partial overlap of the token sets. */
  function ScoreName(normGH: string, ghTokens: seq<string>, normCanvas: string): (score: int)
    ensures score == 100 <==> normGH == normCanvas
    ensures score == 100 || score == 0 || 45 <= score <= 90
  {
    if normGH == normCanvas then 100
    else
      var ghSet, canvasSet := TokenSet(ghTokens), TokenSet(Fields(normCanvas));
      var overlap := ghSet * canvasSet;
      if |overlap| == 0 then 0
      else
        SubsetSize(overlap, ghSet);
        SubsetSize(overlap, canvasSet);
        var shorter := if |canvasSet| < |ghSet| then |canvasSet| else |ghSet|;
        var ratio := |overlap| as real / shorter as real;
        RatioIsAtMostOne(|overlap|, shorter);
        if ratio < 0.5 then 0 else (ratio * 90.0).Floor
  }

  lemma RatioIsAtMostOne(a: nat, b: nat)
    requires 0 < a <= b
    ensures 0.0 <= a as real / b as real <= 1.0
  {
    var x, y := a as real, b as real;
    assert x / y * y == x;
  }

  // ---- What a score means ----

  ghost function WordsOf(name: string): set<string> { set w | w in Fields(name) }

  /** How many words two names have in common, and how many the one with fewer has. */
  ghost function Shared(a: string, b: string): nat { |WordsOf(a) * WordsOf(b)| }

  ghost function Fewer(a: string, b: string): nat {
    if |WordsOf(a)| < |WordsOf(b)| then |WordsOf(a)| else |WordsOf(b)|
  }

  /** The names are the same, or share a word and at least half of the words of one of them. */
  ghost predicate AreAlike(a: string, b: string) {
    a == b || (Shared(a, b) > 0 && (2 * Shared(a, b) >= |WordsOf(a)| || 2 * Shared(a, b) >= |WordsOf(b)|))
  }

  /** 100 for the same name, otherwise the share of the common words in the shorter name, of 90, rounded down. */
  ghost predicate IsScore(score: int, a: string, b: string) {
    if a == b then score == 100
    else if !AreAlike(a, b) then score == 0
    else score * Fewer(a, b) <= 90 * Shared(a, b) < (score + 1) * Fewer(a, b)
  }

  lemma TokensAreWords(s: string)
    ensures TokenSet(Fields(s)) == WordsOf(s)
  {
    assert forall w :: w in Fields(s) <==> exists i :: 0 <= i < |Fields(s)| && Fields(s)[i] == w;
  }

  lemma Scaled(a: real, b: real, y: real)
    requires y > 0.0
    ensures a <= b <==> a * y <= b * y
  {
    if a <= b {
      assert (b - a) * y >= 0.0;
    } else {
      assert (a - b) * y > 0.0;
    }
  }

  lemma RealProduct(s: int, m: nat)
    ensures (s * m) as real == s as real * m as real
  {}

  lemma FloorScaled(p: real, s: int, m: nat, v: int)
    requires m > 0 && p * m as real == v as real && s as real <= p < (s + 1) as real
    ensures s * m <= v < (s + 1) * m
  {
    Scaled(s as real, p, m as real);
    Scaled((s + 1) as real, p, m as real);
    RealProduct(s, m);
    RealProduct(s + 1, m);
  }

  lemma Ninety(x: real, y: real, k: nat)
    requires x * y == k as real
    ensures (x * 90.0) * y == (90 * k) as real
  {
    assert (x * 90.0) * y == 90.0 * (x * y);
  }

  lemma FloorOfShare(k: nat, m: nat)
    requires 0 < k <= m
    ensures var s := (k as real / m as real * 90.0).Floor; s * m <= 90 * k < (s + 1) * m
  {
    var x := k as real / m as real;
    Ninety(x, m as real, k);
    FloorScaled(x * 90.0, (x * 90.0).Floor, m, 90 * k);
  }

  lemma HalfOfShare(k: nat, m: nat)
    requires 0 < k && 0 < m
    ensures k as real / m as real < 0.5 <==> 2 * k < m
  {
    var x, y := k as real / m as real, m as real;
    assert x * y == k as real;
    Scaled(0.5, x, y);
    assert 2.0 * (0.5 * y) == y && 2.0 * (k as real) == (2 * k) as real;
  }

  lemma Multiple(s: int, t: int, m: nat)
    requires s <= t
    ensures s * m <= t * m
  {}

  lemma SameQuotient(s: int, t: int, m: nat, v: nat)
    requires s * m <= v < (s + 1) * m && t * m <= v < (t + 1) * m
    ensures s == t && (v >= m ==> s > 0)
  {
    if s < t { Multiple(s + 1, t, m); }
    if t < s { Multiple(t + 1, s, m); }
    if s <= 0 { Multiple(s + 1, 1, m); }
  }

  /** scoreName computes it. */
  lemma ScoreIsShare(a: string, b: string)
    ensures IsScore(ScoreName(a, Fields(a), b), a, b)
  {
    TokensAreWords(a);
    TokensAreWords(b);
    var k, m := Shared(a, b), Fewer(a, b);
    SharedIsLess(a, b);
    if k > 0 {
      HalfOfShare(k, m);
      FloorOfShare(k, m);
    }
  }

  /** A score is determined, and positive for alike names alone. */
  lemma ScoreIsDetermined(s: int, t: int, a: string, b: string)
    requires IsScore(s, a, b) && IsScore(t, a, b)
    ensures s == t && (s > 0 <==> AreAlike(a, b))
  {
    if a != b && AreAlike(a, b) {
      SharedIsLess(a, b);
      SameQuotient(s, t, Fewer(a, b), 90 * Shared(a, b));
    }
  }

  lemma SharedIsLess(a: string, b: string)
    ensures Shared(a, b) <= Fewer(a, b)
    ensures AreAlike(a, b) && a != b ==> 90 * Shared(a, b) >= Fewer(a, b)
  {
    SubsetSize(WordsOf(a) * WordsOf(b), WordsOf(a));
    SubsetSize(WordsOf(a) * WordsOf(b), WordsOf(b));
  }

  /** A name whose words are all among the other's scores 90, however many the other has. */
  lemma PartScores90(a: string, b: string)
    requires a != b && (WordsOf(a) <= WordsOf(b) || WordsOf(b) <= WordsOf(a)) && Shared(a, b) > 0
    ensures ScoreName(a, Fields(a), b) == 90
  {
    if WordsOf(a) <= WordsOf(b) {
      assert WordsOf(a) * WordsOf(b) == WordsOf(a);
      SubsetSize(WordsOf(a), WordsOf(b));
    } else {
      assert WordsOf(a) * WordsOf(b) == WordsOf(b);
      SubsetSize(WordsOf(b), WordsOf(a));
    }
    ScoreIsShare(a, b);
    ScoreIsDetermined(ScoreName(a, Fields(a), b), 90, a, b);
  }

  // ---- Candidates ----

  /** The candidate a student makes: None for an empty name or a score of 0. */
  function CandidateFor(norm: string, s: Student, nf: Normal): Option<Candidate> {
    var n := nf(s.name);
    if n == "" then None
    else
      var score := ScoreName(norm, Fields(norm), n);
      if score > 0 then Some(Candidate(s, score)) else None
  }

  function ScoredOne(norm: string, s: Student, nf: Normal): seq<Candidate> {
    match CandidateFor(norm, s, nf) case None => [] case Some(c) => [c]
  }

  function Scored(norm: string, students: seq<Student>, nf: Normal): seq<Candidate> {
    if students == [] then [] else ScoredOne(norm, students[0], nf) + Scored(norm, students[1..], nf)
  }

  predicate ScoreGeq(a: Candidate, b: Candidate) { a.score >= b.score }

  lemma {:induction false} ScoredPush(norm: string, students: seq<Student>, s: Student, nf: Normal)
    ensures Scored(norm, students + [s], nf) == Scored(norm, students, nf) + ScoredOne(norm, s, nf)
  {
    if students == [] {
      assert students + [s] == [s] && [s][1..] == [];
      assert ScoredOne(norm, s, nf) + [] == [] + ScoredOne(norm, s, nf);
    } else {
      ScoredPush(norm, students[1..], s, nf);
      ConcatTail(students, [s]);
      ConcatAssoc(ScoredOne(norm, students[0], nf), Scored(norm, students[1..], nf), ScoredOne(norm, s, nf));
    }
  }

  /** The loop over the students. */
  method CollectCandidates(norm: string, students: seq<Student>, nf: Normal) returns (candidates: seq<Candidate>)
    ensures candidates == Scored(norm, students, nf)
  {
    candidates := [];
    var ghTokens := Fields(norm);
    for i := 0 to |students|
      invariant candidates == Scored(norm, students[..i], nf)
    {
      var cs := students[i];
      assert students[..i + 1] == students[..i] + [cs];
      ScoredPush(norm, students[..i], cs, nf);
      var normCanvas := nf(cs.name);
      if normCanvas == "" {
        continue;
      }
      var score := ScoreName(norm, ghTokens, normCanvas);
      if score > 0 {
        candidates := candidates + [Candidate(cs, score)];
      }
    }
    assert students[..|students|] == students;
  }

  lemma ScoreGeqIsTotalPreorder()
    ensures TotalPreorder(ScoreGeq)
  {}

  function StudentsOf(candidates: seq<Candidate>): seq<Student> {
    seq(|candidates|, i requires 0 <= i < |candidates| => candidates[i].student)
  }

  /** The students whose names are like the given one, each as often as listed, with their scores, best first. */
  ghost predicate AreRanked(candidates: seq<Candidate>, norm: string, students: seq<Student>, nf: Normal) {
    && (forall c :: c in candidates ==> IsScore(c.score, norm, nf(c.student.name)))
    && (forall s :: multiset(StudentsOf(candidates))[s] ==
                    if norm != "" && nf(s.name) != "" && AreAlike(norm, nf(s.name)) then multiset(students)[s] else 0)
    && (forall i, j :: 0 <= i < j < |candidates| ==> candidates[i].score >= candidates[j].score)
  }

  lemma CandidateIffAlike(norm: string, s: Student, nf: Normal)
    ensures CandidateFor(norm, s, nf).Some? <==> nf(s.name) != "" && AreAlike(norm, nf(s.name))
    ensures CandidateFor(norm, s, nf).Some? ==>
              CandidateFor(norm, s, nf).value.student == s
              && IsScore(CandidateFor(norm, s, nf).value.score, norm, nf(s.name))
  {
    ScoreIsShare(norm, nf(s.name));
    ScoreIsDetermined(ScoreName(norm, Fields(norm), nf(s.name)), ScoreName(norm, Fields(norm), nf(s.name)),
                      norm, nf(s.name));
  }

  lemma StudentsConcat(a: seq<Candidate>, b: seq<Candidate>)
    ensures StudentsOf(a + b) == StudentsOf(a) + StudentsOf(b)
  {}

  lemma StudentsOfOne(norm: string, s: Student, nf: Normal)
    ensures StudentsOf(ScoredOne(norm, s, nf)) ==
            if nf(s.name) != "" && AreAlike(norm, nf(s.name)) then [s] else []
  {
    hide AreAlike;
    CandidateIffAlike(norm, s, nf);
  }

  lemma {:induction false} ScoredStudents(norm: string, students: seq<Student>, s: Student, nf: Normal)
    ensures multiset(StudentsOf(Scored(norm, students, nf)))[s] ==
            if nf(s.name) != "" && AreAlike(norm, nf(s.name)) then multiset(students)[s] else 0
  {
    hide AreAlike, StudentsOf, ScoredOne;
    if students == [] {
      NoStudents();
    } else {
      ScoredStudents(norm, students[1..], s, nf);
      StudentsConcat(ScoredOne(norm, students[0], nf), Scored(norm, students[1..], nf));
      StudentsOfOne(norm, students[0], nf);
      HeadTail(students);
      assert multiset(students) == multiset([students[0]]) + multiset(students[1..]);
    }
  }

  lemma NoStudents()
    ensures StudentsOf([]) == []
  {}

  lemma WithoutStudent(b: seq<Candidate>, k: nat)
    requires k < |b|
    ensures var rest := b[..k] + b[k + 1..];
            && multiset(rest) == multiset(b) - multiset{b[k]}
            && multiset(StudentsOf(b)) == multiset(StudentsOf(rest)) + multiset{b[k].student}
  {
    var rest := b[..k] + b[k + 1..];
    Around(b, k);
    assert multiset(b) == multiset(b[..k]) + multiset{b[k]} + multiset(b[k + 1..]);
    StudentsConcat(b[..k], b[k + 1..]);
    assert StudentsOf(b) == StudentsOf(b[..k]) + [b[k].student] + StudentsOf(b[k + 1..]);
  }

  lemma {:induction false} SameStudents(a: seq<Candidate>, b: seq<Candidate>)
    requires multiset(a) == multiset(b)
    ensures multiset(StudentsOf(a)) == multiset(StudentsOf(b))
  {
    hide StudentsOf;
    assert |multiset(a)| == |a| && |multiset(b)| == |b|;
    if a != [] {
      assert a[0] in multiset(b);
      var k :| 0 <= k < |b| && b[k] == a[0];
      WithoutStudent(a, 0);
      WithoutStudent(b, k);
      SameStudents(a[..0] + a[1..], b[..k] + b[k + 1..]);
    }
  }

  lemma CandidatesAreRanked(candidates: seq<Candidate>, norm: string, students: seq<Student>, nf: Normal)
    requires AreCandidates(candidates, norm, students, nf)
    ensures AreRanked(candidates, norm, students, nf)
  {
    if norm != "" {
      var all := Scored(norm, students, nf);
      SameStudents(candidates, all);
      ScoredMembers(norm, students, nf);
      forall s { ScoredStudents(norm, students, s, nf); }
      forall c | c in candidates ensures IsScore(c.score, norm, nf(c.student.name)) {
        assert c in multiset(candidates);
        CandidateIffAlike(norm, c.student, nf);
      }
      forall i, j | 0 <= i < j < |candidates| ensures candidates[i].score >= candidates[j].score {
        assert ScoreGeq(candidates[i], candidates[j]);
      }
    }
  }

  /** The scored students, best first; nothing is promised about the order of equal scores. */
  method FindCandidates(ghName: string, students: seq<Student>, nf: Normal) returns (candidates: seq<Candidate>)
    ensures AreCandidates(candidates, nf(ghName), students, nf)
    ensures AreRanked(candidates, nf(ghName), students, nf)
  {
    var norm := nf(ghName);
    hide AreRanked;
    if norm == "" {
      candidates := [];
    } else {
      candidates := CollectCandidates(norm, students, nf);
      ScoreGeqIsTotalPreorder();
      SortByIsStableSort(candidates, ScoreGeq);
      candidates := SortBy(candidates, ScoreGeq);
    }
    CandidatesAreRanked(candidates, norm, students, nf);
  }

  lemma {:induction false} ScoredMembers(norm: string, students: seq<Student>, nf: Normal)
    ensures forall c :: c in Scored(norm, students, nf) <==>
              c.student in students && CandidateFor(norm, c.student, nf) == Some(c)
  {
    if students != [] {
      ScoredMembers(norm, students[1..], nf);
    }
  }

  // ---- Names as a bag ----

  /** The non-empty normalized names of a list, with their multiplicities. */
  function Norms(names: seq<string>, nf: Normal): multiset<string> {
    if names == [] then multiset{}
    else
      var n := nf(names[|names| - 1]);
      Norms(names[..|names| - 1], nf) + if n == "" then multiset{} else multiset{n}
  }

  function NamesOf(students: seq<Student>): seq<string> {
    seq(|students|, i requires 0 <= i < |students| => students[i].name)
  }

  /** The normalized names of the students whose ID has not been used. */
  function Free(students: seq<Student>, used: set<int>, nf: Normal): multiset<string> {
    if students == [] then multiset{}
    else
      var s := students[|students| - 1];
      var n := nf(s.name);
      Free(students[..|students| - 1], used, nf) + if n == "" || s.canvasID in used then multiset{} else multiset{n}
  }

  predicate DistinctIDs(students: seq<Student>) {
    forall i, j :: 0 <= i < j < |students| ==> students[i].canvasID != students[j].canvasID
  }

  lemma {:induction false} FreeMembers(students: seq<Student>, used: set<int>, n: string, nf: Normal)
    ensures n in Free(students, used, nf) <==>
            n != "" && exists s :: s in students && s.canvasID !in used && nf(s.name) == n
  {
    if students != [] {
      var front, last := students[..|students| - 1], students[|students| - 1];
      FreeMembers(front, used, n, nf);
      assert students == front + [last];
      assert forall s :: s in students <==> s in front || s == last;
    }
  }

  lemma {:induction false} UsingOne(students: seq<Student>, used: set<int>, s: Student, nf: Normal)
    requires DistinctIDs(students) && s in students && s.canvasID !in used && nf(s.name) != ""
    ensures Free(students, used, nf) == Free(students, used + {s.canvasID}, nf) + multiset{nf(s.name)}
  {
    var front, last := students[..|students| - 1], students[|students| - 1];
    assert students == front + [last];
    if s == last {
      UsingOther(front, used, s.canvasID, nf);
    } else {
      UsingOne(front, used, s, nf);
    }
  }

  lemma {:induction false} UsingOther(students: seq<Student>, used: set<int>, id: int, nf: Normal)
    requires forall i :: 0 <= i < |students| ==> students[i].canvasID != id
    ensures Free(students, used + {id}, nf) == Free(students, used, nf)
  {
    if students != [] {
      UsingOther(students[..|students| - 1], used, id, nf);
    }
  }

  lemma {:induction false} AllFree(students: seq<Student>, nf: Normal)
    ensures Free(students, {}, nf) == Norms(NamesOf(students), nf)
  {
    if students != [] {
      AllFree(students[..|students| - 1], nf);
      assert NamesOf(students)[..|students| - 1] == NamesOf(students[..|students| - 1]);
    }
  }

  // ---- AutoMatch ----

  function PairNames(matched: seq<Pair>): seq<string> {
    seq(|matched|, i requires 0 <= i < |matched| => matched[i].ghName)
  }

  function PairIDs(matched: seq<Pair>): set<int> { set p | p in matched :: p.student.canvasID }

  /** all is made of a and b, each in its own order. */
  predicate Interleaves(all: seq<string>, a: seq<string>, b: seq<string>)
    decreases |all|
  {
    if all == [] then a == [] && b == []
    else
      var n, x := |all| - 1, all[|all| - 1];
      || (a != [] && a[|a| - 1] == x && Interleaves(all[..n], a[..|a| - 1], b))
      || (b != [] && b[|b| - 1] == x && Interleaves(all[..n], a, b[..|b| - 1]))
  }

  /** A pair joins a listed student with a name that normalizes to the same non-empty string. */
  predicate IsGoodPair(p: Pair, students: seq<Student>, nf: Normal) {
    p.student in students && nf(p.ghName) == nf(p.student.name) != ""
  }

  predicate GoodPairs(matched: seq<Pair>, students: seq<Student>, nf: Normal) {
    && (forall p :: p in matched ==> IsGoodPair(p, students, nf))
    && (forall i, j :: 0 <= i < j < |matched| ==> matched[i].student.canvasID != matched[j].student.canvasID)
  }

  /** The first candidate whose student is not used. */
  method FirstUnused(candidates: seq<Candidate>, used: set<int>) returns (k: nat)
    ensures k <= |candidates| && forall j :: 0 <= j < k ==> candidates[j].student.canvasID in used
    ensures k < |candidates| ==> candidates[k].student.canvasID !in used
  {
    k := 0;
    while k < |candidates| && candidates[k].student.canvasID in used
      invariant k <= |candidates| && forall j :: 0 <= j < k ==> candidates[j].student.canvasID in used
    {
      k := k + 1;
    }
  }

  /** An unused student with the same normalized name, if there is one. */
  ghost predicate IsChoice(best: Option<Student>, norm: string, students: seq<Student>, used: set<int>, nf: Normal) {
    && (best.Some? <==> norm in Free(students, used, nf))
    && (best.Some? ==> best.value in students && best.value.canvasID !in used && nf(best.value.name) == norm != "")
  }

  method Choose(ghName: string, students: seq<Student>, used: set<int>, nf: Normal) returns (best: Option<Student>)
    ensures IsChoice(best, nf(ghName), students, used, nf)
  {
    var candidates := FindCandidates(ghName, students, nf);
    var k := FirstUnused(candidates, used);
    if k < |candidates| && candidates[k].score >= 100 {
      best := Some(candidates[k].student);
      ExactCandidate(nf(ghName), students, used, candidates, k, nf);
    } else {
      best := None;
      NoExactCandidate(nf(ghName), students, used, candidates, k, nf);
    }
  }

  ghost predicate AreCandidates(candidates: seq<Candidate>, norm: string, students: seq<Student>, nf: Normal) {
    if norm == "" then candidates == []
    else multiset(candidates) == multiset(Scored(norm, students, nf)) && Sorted(candidates, ScoreGeq)
  }

  lemma ExactCandidate(norm: string, students: seq<Student>, used: set<int>, candidates: seq<Candidate>, k: nat,
                       nf: Normal)
    requires AreCandidates(candidates, norm, students, nf)
    requires k < |candidates| && candidates[k].score >= 100 && candidates[k].student.canvasID !in used
    ensures IsChoice(Some(candidates[k].student), norm, students, used, nf)
  {
    var c := candidates[k];
    assert c in multiset(candidates);
    assert c in Scored(norm, students, nf);
    ScoredMembers(norm, students, nf);
    FreeMembers(students, used, norm, nf);
  }

  lemma ExactScore(norm: string, s: Student, nf: Normal)
    requires nf(s.name) == norm != ""
    ensures CandidateFor(norm, s, nf) == Some(Candidate(s, 100))
  {}

  lemma ExactIsListed(norm: string, students: seq<Student>, candidates: seq<Candidate>, s: Student, nf: Normal)
    requires AreCandidates(candidates, norm, students, nf) && s in students && nf(s.name) == norm != ""
    ensures Candidate(s, 100) in candidates
  {
    ExactScore(norm, s, nf);
    ScoredMembers(norm, students, nf);
    assert Candidate(s, 100) in multiset(candidates);
  }

  lemma NoExactCandidate(norm: string, students: seq<Student>, used: set<int>, candidates: seq<Candidate>, k: nat,
                         nf: Normal)
    requires AreCandidates(candidates, norm, students, nf)
    requires k <= |candidates| && forall j :: 0 <= j < k ==> candidates[j].student.canvasID in used
    requires k < |candidates| ==> candidates[k].score < 100
    ensures norm !in Free(students, used, nf)
  {
    FreeMembers(students, used, norm, nf);
    forall s | s in students && nf(s.name) == norm != "" ensures s.canvasID in used {
      ExactIsListed(norm, students, candidates, s, nf);
      var j :| 0 <= j < |candidates| && candidates[j] == Candidate(s, 100);
      assert j < k || ScoreGeq(candidates[k], candidates[j]);
    }
  }

  lemma NormsPush(names: seq<string>, name: string, nf: Normal)
    ensures Norms(names + [name], nf) ==
            Norms(names, nf) + if nf(name) == "" then multiset{} else multiset{nf(name)}
  {
    assert (names + [name])[..|names|] == names;
  }

  lemma InterleavesPush(all: seq<string>, a: seq<string>, b: seq<string>, x: string)
    requires Interleaves(all, a, b)
    ensures Interleaves(all + [x], a + [x], b) && Interleaves(all + [x], a, b + [x])
  {
    assert (all + [x])[..|all|] == all && (a + [x])[..|a|] == a && (b + [x])[..|b|] == b;
  }

  lemma PairsPush(matched: seq<Pair>, p: Pair, students: seq<Student>, nf: Normal)
    requires GoodPairs(matched, students, nf) && IsGoodPair(p, students, nf) && p.student.canvasID !in PairIDs(matched)
    ensures GoodPairs(matched + [p], students, nf)
    ensures PairIDs(matched + [p]) == PairIDs(matched) + {p.student.canvasID}
    ensures PairNames(matched + [p]) == PairNames(matched) + [p.ghName]
  {
    var next := matched + [p];
    assert forall x :: x in next <==> x in matched || x == p;
    forall i | 0 <= i < |matched| ensures matched[i].student.canvasID in PairIDs(matched) {
      assert matched[i] in matched;
    }
  }

  /** One name more: it is matched exactly when its normal form is still free. */
  lemma BagStep(a: multiset<string>, b: multiset<string>, m: multiset<string>, free: multiset<string>, n: string)
    requires m == a * b && free + m == b
    ensures n in free ==> m + multiset{n} == (a + multiset{n}) * b && free == (free - multiset{n}) + multiset{n}
    ensures n !in free ==> m == (a + multiset{n}) * b
  {
    assert forall x :: m[x] == if a[x] < b[x] then a[x] else b[x];
    assert forall x :: free[x] + m[x] == b[x];
  }

  /** What holds after the names in done: the matched names are what done and the students have in common, and
      the names of the unused students are the rest. */
  ghost predicate Progress(done: seq<string>, students: seq<Student>, matched: seq<Pair>, unmatched: seq<string>,
                           used: set<int>, nf: Normal)
  {
    var names, all := Norms(PairNames(matched), nf), Norms(NamesOf(students), nf);
    && GoodPairs(matched, students, nf) && used == PairIDs(matched)
    && Interleaves(done, PairNames(matched), unmatched)
    && names == Norms(done, nf) * all
    && Free(students, used, nf) + names == all
  }

  lemma StartOfMatching(students: seq<Student>, nf: Normal)
    ensures Progress([], students, [], [], {}, nf)
  {
    AllFree(students, nf);
    assert PairNames([]) == [] && PairIDs([]) == {};
  }

  /** The loop body. */
  method MatchOne(ghName: string, students: seq<Student>, before: seq<Pair>, left: seq<string>, taken: set<int>,
                  nf: Normal, ghost done: seq<string>)
    returns (matched: seq<Pair>, unmatched: seq<string>, used: set<int>)
    requires DistinctIDs(students) && Progress(done, students, before, left, taken, nf)
    ensures Progress(done + [ghName], students, matched, unmatched, used, nf)
  {
    matched, unmatched, used := before, left, taken;
    ghost var names, all := PairNames(before), Norms(NamesOf(students), nf);
    InterleavesPush(done, names, left, ghName);
    NormsPush(done, ghName, nf);
    NormsPush(names, ghName, nf);
    BagStep(Norms(done, nf), all, Norms(names, nf), Free(students, taken, nf), nf(ghName));
    var best := Choose(ghName, students, taken, nf);
    if best.Some? {
      var p := Pair(ghName, best.value);
      UsingOne(students, taken, best.value, nf);
      PairsPush(before, p, students, nf);
      matched := before + [p];
      used := taken + {best.value.canvasID};
    } else {
      unmatched := left + [ghName];
    }
  }

  /** Greedy matching. The matched names are a largest possible bag: what the two lists have in common. */
  method AutoMatch(ghNames: seq<string>, students: seq<Student>, nf: Normal)
    returns (matched: seq<Pair>, unmatched: seq<string>)
    requires DistinctIDs(students)
    ensures GoodPairs(matched, students, nf)
    ensures Interleaves(ghNames, PairNames(matched), unmatched)
    ensures Norms(PairNames(matched), nf) == Norms(ghNames, nf) * Norms(NamesOf(students), nf)
  {
    var used: set<int> := {};
    matched, unmatched := [], [];
    StartOfMatching(students, nf);
    assert ghNames[..0] == [];
    for i := 0 to |ghNames|
      invariant Progress(ghNames[..i], students, matched, unmatched, used, nf)
    {
      assert ghNames[..i + 1] == ghNames[..i] + [ghNames[i]];
      matched, unmatched, used := MatchOne(ghNames[i], students, matched, unmatched, used, nf, ghNames[..i]);
    }
    assert ghNames[..|ghNames|] == ghNames;
  }

  // ---- Maximality ----

  /** Any other way to match: pairs of positions, no position used twice, names normalizing to the same. */
  ghost predicate IsMatching(m: seq<(nat, nat)>, ghNames: seq<string>, students: seq<Student>, nf: Normal) {
    && (forall k :: 0 <= k < |m| ==> m[k].0 < |ghNames| && m[k].1 < |students|)
    && (forall k :: 0 <= k < |m| ==> nf(ghNames[m[k].0]) == nf(students[m[k].1].name) != "")
    && (forall k, l :: 0 <= k < l < |m| ==> m[k].0 != m[l].0 && m[k].1 != m[l].1)
  }

  predicate DistinctIndices(idx: seq<nat>, n: nat) {
    && (forall k :: 0 <= k < |idx| ==> idx[k] < n)
    && (forall k, l :: 0 <= k < l < |idx| ==> idx[k] != idx[l])
  }

  function Picked(names: seq<string>, idx: seq<nat>): seq<string>
    requires forall k :: 0 <= k < |idx| ==> idx[k] < |names|
  {
    seq(|idx|, k requires 0 <= k < |idx| => names[idx[k]])
  }

  lemma {:induction false} NormsConcat(a: seq<string>, b: seq<string>, nf: Normal)
    ensures Norms(a + b, nf) == Norms(a, nf) + Norms(b, nf)
  {
    if b == [] {
      assert a + b == a;
    } else {
      NormsConcat(a, b[..|b| - 1], nf);
      ConcatInit(a, b);
    }
  }

  /** Names picked at different positions are part of the bag of all names. */
  lemma {:induction false} PickedIsPart(names: seq<string>, idx: seq<nat>, nf: Normal)
    requires DistinctIndices(idx, |names|)
    ensures Norms(Picked(names, idx), nf) <= Norms(names, nf)
    decreases |names|
  {
    if names == [] {
      NoIndices(idx, |names|);
    } else {
      var n := |names| - 1;
      if k :| 0 <= k < |idx| && idx[k] == n {
        PickedSplit(names, idx, k, nf);
        PickedIsPart(names[..n], idx[..k] + idx[k + 1..], nf);
        assert Norms(Picked(names, idx), nf) <= Norms(names[..n], nf) + Norms([names[n]], nf);
      } else {
        PickedIsPart(names[..n], idx, nf);
        assert Picked(names, idx) == Picked(names[..n], idx);
      }
    }
  }

  lemma NoIndices(idx: seq<nat>, n: nat)
    requires DistinctIndices(idx, n)
    ensures n == 0 ==> idx == []
  {
    if idx != [] { assert idx[0] < n; }
  }

  lemma WithoutOne(idx: seq<nat>, k: nat, n: nat)
    requires DistinctIndices(idx, n) && k < |idx| && idx[k] == n - 1
    ensures DistinctIndices(idx[..k] + idx[k + 1..], n - 1)
  {
    var rest := idx[..k] + idx[k + 1..];
    forall j | 0 <= j < |rest| ensures rest[j] == idx[if j < k then j else j + 1] {}
  }

  lemma PickedParts(names: seq<string>, idx: seq<nat>, k: nat)
    requires names != [] && DistinctIndices(idx, |names|) && k < |idx| && idx[k] == |names| - 1
    ensures DistinctIndices(idx[..k] + idx[k + 1..], |names| - 1)
    ensures DistinctIndices(idx[..k], |names| - 1) && DistinctIndices(idx[k + 1..], |names| - 1)
    ensures var front := names[..|names| - 1];
            && Picked(names, idx) == Picked(front, idx[..k]) + [names[|names| - 1]] + Picked(front, idx[k + 1..])
            && Picked(front, idx[..k] + idx[k + 1..]) == Picked(front, idx[..k]) + Picked(front, idx[k + 1..])
  {
    WithoutOne(idx, k, |names|);
    var rest := idx[..k] + idx[k + 1..];
    assert rest[..k] == idx[..k] && rest[k..] == idx[k + 1..];
  }

  lemma NormsAround(a: seq<string>, b: seq<string>, c: seq<string>, nf: Normal)
    ensures Norms(a + b + c, nf) == Norms(a + c, nf) + Norms(b, nf)
  {
    NormsConcat(a + b, c, nf);
    NormsConcat(a, b, nf);
    NormsConcat(a, c, nf);
  }

  lemma PickedSplit(names: seq<string>, idx: seq<nat>, k: nat, nf: Normal)
    requires names != [] && DistinctIndices(idx, |names|) && k < |idx| && idx[k] == |names| - 1
    ensures DistinctIndices(idx[..k] + idx[k + 1..], |names| - 1)
    ensures Norms(Picked(names, idx), nf) ==
            Norms(Picked(names[..|names| - 1], idx[..k] + idx[k + 1..]), nf) + Norms([names[|names| - 1]], nf)
    ensures Norms(names, nf) == Norms(names[..|names| - 1], nf) + Norms([names[|names| - 1]], nf)
  {
    PickedParts(names, idx, k);
    var front := names[..|names| - 1];
    NormsAround(Picked(front, idx[..k]), [names[|names| - 1]], Picked(front, idx[k + 1..]), nf);
    NormsConcat(front, [names[|names| - 1]], nf);
    InitLast(names);
  }

  lemma {:induction false} NormsSize(names: seq<string>, nf: Normal)
    requires forall n :: n in names ==> nf(n) != ""
    ensures |Norms(names, nf)| == |names|
  {
    if names != [] { NormsSize(names[..|names| - 1], nf); }
  }

  lemma PartIsSmaller(a: multiset<string>, b: multiset<string>)
    requires a <= b
    ensures |a| <= |b|
  {
    assert b == a + (b - a);
  }

  lemma {:induction false} SameNorms(a: seq<string>, b: seq<string>, nf: Normal)
    requires |a| == |b| && forall k :: 0 <= k < |a| ==> nf(a[k]) == nf(b[k])
    ensures Norms(a, nf) == Norms(b, nf)
  {
    if a != [] { SameNorms(a[..|a| - 1], b[..|b| - 1], nf); }
  }

  /** No matching is larger than the greedy one: matched is what AutoMatch promises, m is any matching. */
  lemma GreedyMatchingIsMaximum(ghNames: seq<string>, students: seq<Student>, matched: seq<Pair>, m: seq<(nat, nat)>,
                                nf: Normal)
    requires GoodPairs(matched, students, nf)
    requires Norms(PairNames(matched), nf) == Norms(ghNames, nf) * Norms(NamesOf(students), nf)
    requires IsMatching(m, ghNames, students, nf)
    ensures |m| <= |matched| == |Norms(ghNames, nf) * Norms(NamesOf(students), nf)|
  {
    MatchingIsPart(ghNames, students, m, nf);
    forall n | n in PairNames(matched) ensures nf(n) != "" {
      var k :| 0 <= k < |matched| && n == matched[k].ghName;
      assert IsGoodPair(matched[k], students, nf);
    }
    NormsSize(PairNames(matched), nf);
  }

  function Lefts(m: seq<(nat, nat)>): (r: seq<nat>)
    ensures |r| == |m| && forall k :: 0 <= k < |m| ==> r[k] == m[k].0
  {
    seq(|m|, k requires 0 <= k < |m| => m[k].0)
  }

  function Rights(m: seq<(nat, nat)>): (r: seq<nat>)
    ensures |r| == |m| && forall k :: 0 <= k < |m| ==> r[k] == m[k].1
  {
    seq(|m|, k requires 0 <= k < |m| => m[k].1)
  }

  lemma MatchingIsPart(ghNames: seq<string>, students: seq<Student>, m: seq<(nat, nat)>, nf: Normal)
    requires IsMatching(m, ghNames, students, nf)
    ensures |m| <= |Norms(ghNames, nf) * Norms(NamesOf(students), nf)|
  {
    hide Norms;
    var a, b := Picked(ghNames, Lefts(m)), Picked(NamesOf(students), Rights(m));
    PickedIsPart(ghNames, Lefts(m), nf);
    PickedIsPart(NamesOf(students), Rights(m), nf);
    forall k | 0 <= k < |m| ensures nf(a[k]) == nf(b[k]) != "" {
      assert a[k] == ghNames[m[k].0] && b[k] == students[m[k].1].name;
    }
    SameNorms(a, b, nf);
    NormsSize(a, nf);
    PartIsSmaller(Norms(a, nf), Norms(ghNames, nf) * Norms(NamesOf(students), nf));
  }

  /** The program's own normal form. */
  method AutoMatchNames(ghNames: seq<string>, students: seq<Student>)
    returns (matched: seq<Pair>, unmatched: seq<string>)
    requires DistinctIDs(students)
    ensures GoodPairs(matched, students, NameNormal.NormalizeName)
    ensures Interleaves(ghNames, PairNames(matched), unmatched)
    ensures forall m :: IsMatching(m, ghNames, students, NameNormal.NormalizeName) ==> |m| <= |matched|
  {
    matched, unmatched := AutoMatch(ghNames, students, NameNormal.NormalizeName);
    forall m | IsMatching(m, ghNames, students, NameNormal.NormalizeName) ensures |m| <= |matched| {
      GreedyMatchingIsMaximum(ghNames, students, matched, m, NameNormal.NormalizeName);
    }
  }
}
