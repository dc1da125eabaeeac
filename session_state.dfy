/** The per-module quiz counters of script.js and their persistence: answer bookkeeping
    (`handleAnswerSelection`), the saved progress record (`saveProgress`, `loadProgress`,
    `resetModuleProgress`) and the key it is stored under. */
module SessionState {
  import opened Pagination

  /** The closure variables a quiz session updates: `score`, `answeredQuestions`,
      `userAnswers` (question index to option index), `currentPage`, `correctAnswersCount`. */
  datatype Counters = Counters(
    score: int,
    answered: set<nat>,
    userAnswers: map<nat, nat>,
    currentPage: int,
    correctCount: int)

  /** What `resetModuleProgress` and a fresh start leave behind. */
  const Initial: Counters := Counters(0, {}, map[], 1, 0)

  /** Options a question offers (the `prefixes` A to D). */
  const OptionCount: nat := 4

  /** `handleAnswerSelection` on the counters: nothing for a question already answered;
      otherwise the question is marked answered, the option recorded, and `score` and
      `correctAnswersCount` both go up by one when the option is the correct one. */
  function Answer(c: Counters, q: nat, option: nat, isCorrect: bool): Counters
  {
    if q in c.answered then c
    else
      var bump := if isCorrect then 1 else 0;
      Counters(c.score + bump, c.answered + {q}, c.userAnswers[q := option], c.currentPage, c.correctCount + bump)
  }

  /** The counters of a session over `n` questions as the handlers keep them: the page is a
      valid one, the answered set is the domain of the recorded answers, every answered index is a
      question and every recorded option one of the four, and the score is the number of correct
      answers, which are among the answered ones. */
  ghost predicate Coherent(c: Counters, n: nat)
  {
    && ValidPage(c.currentPage, n)
    && c.answered == c.userAnswers.Keys
    && (forall q :: q in c.answered ==> q < n)
    && (forall q :: q in c.userAnswers ==> c.userAnswers[q] < OptionCount)
    && c.score == c.correctCount
    && 0 <= c.correctCount <= |c.answered|
  }

  lemma InitialCoherent(n: nat)
    ensures Coherent(Initial, n)
  {
  }

  /** Selecting an option for a question already answered, whether in this visit or in restored
      progress, changes nothing. */
  lemma AnsweredUnchanged(c: Counters, q: nat, option: nat, isCorrect: bool)
    requires q in c.answered
    ensures Answer(c, q, option, isCorrect) == c
  {
  }

  /** A second selection for the same question changes nothing: the first one stands. */
  lemma AnswerOnce(c: Counters, q: nat, o1: nat, b1: bool, o2: nat, b2: bool)
    ensures Answer(Answer(c, q, o1, b1), q, o2, b2) == Answer(c, q, o1, b1)
  {
  }

  /** The score and the correct count rise together, by one, exactly when an unanswered question
      is answered correctly; an unanswered question joins the answered set with its option
      recorded, and the other answered questions and recorded options stay; the page never moves. */
  lemma AnswerEffect(c: Counters, q: nat, option: nat, isCorrect: bool)
    ensures var r := Answer(c, q, option, isCorrect);
      && r.score - c.score == r.correctCount - c.correctCount == (if q !in c.answered && isCorrect then 1 else 0)
      && |r.answered| == |c.answered| + (if q in c.answered then 0 else 1)
      && q in r.answered && c.answered <= r.answered
      && (q !in c.answered ==> r.answered == c.answered + {q})
      && (q !in c.answered ==> q in r.userAnswers && r.userAnswers[q] == option)
      && (forall q' :: q' in c.userAnswers && q' != q ==> q' in r.userAnswers && r.userAnswers[q'] == c.userAnswers[q'])
      && r.currentPage == c.currentPage
  {
  }

  /** Answering a question of the module with one of its options keeps the counters coherent. */
  lemma AnswerKeepsCoherent(c: Counters, n: nat, q: nat, option: nat, isCorrect: bool)
    requires Coherent(c, n) && q < n && option < OptionCount
    ensures Coherent(Answer(c, q, option, isCorrect), n)
  {
    if q !in c.answered {
      assert |c.answered + {q}| == |c.answered| + 1;
    }
  }

  /** The indices `0 .. n - 1`. */
  function Below(n: nat): (r: set<nat>)
    ensures forall q: nat :: q in r <==> q < n
    ensures |r| == n
  {
    if n == 0 then {}
    else
      var r := Below(n - 1) + {n - 1};
      assert n - 1 !in Below(n - 1);
      r
  }

  /** `score == correctAnswersCount <= |answeredQuestions| <= n`. */
  lemma ScoreBounded(c: Counters, n: nat)
    requires Coherent(c, n)
    ensures 0 <= c.score == c.correctCount <= |c.answered| <= n
  {
    assert c.answered <= Below(n);
    SubsetCardinality(c.answered, Below(n));
  }

  lemma SubsetCardinality(a: set<nat>, b: set<nat>)
    requires a <= b
    ensures |a| <= |b|
  {
    assert b == a + (b - a);
  }

  /** The record `saveProgress` stores; `lastAccessed` is the time of saving in milliseconds. */
  datatype Progress = Progress(
    score: int,
    answered: set<nat>,
    userAnswers: map<nat, nat>,
    currentPage: int,
    correctCount: int,
    lastAccessed: int)

  function Snapshot(c: Counters, now: int): Progress
  {
    Progress(c.score, c.answered, c.userAnswers, c.currentPage, c.correctCount, now)
  }

  /** The assignments of `loadProgress`; `currentPage || 1` turns a saved page 0 into page 1. */
  function Restore(p: Progress): Counters
  {
    Counters(p.score, p.answered, p.userAnswers, if p.currentPage == 0 then 1 else p.currentPage, p.correctCount)
  }

  /** A stored value: a record, or something `JSON.parse` or the field accesses reject. */
  datatype Entry = Saved(progress: Progress) | Corrupt

  /** `localStorage` as far as the quiz uses it. */
  type Storage = map<string, Entry>

  const KeyPrefix: string := "quizProgress_"

  /** The key `quizProgress_<module>`. */
  function Key(moduleName: string): (k: string)
    ensures |k| == |KeyPrefix| + |moduleName| && k[..|KeyPrefix|] == KeyPrefix
    ensures k[|KeyPrefix|..] == moduleName
  {
    KeyPrefix + moduleName
  }

  /** Different modules never share a key. */
  lemma KeyInjective(m1: string, m2: string)
    ensures Key(m1) == Key(m2) <==> m1 == m2
  {
    if Key(m1) == Key(m2) {
      assert m1 == Key(m1)[|KeyPrefix|..];
      assert m2 == Key(m2)[|KeyPrefix|..];
    }
  }

  const DayMs: int := 1000 * 60 * 60 * 24

  /** Saved progress older than seven days is discarded: `daysDiff > 7` with `daysDiff` the
      elapsed milliseconds divided by a day's worth. */
  predicate Expired(p: Progress, now: int)
  {
    now - p.lastAccessed > 7 * DayMs
  }

  /** `saveProgress` for module `moduleName`. */
  function Save(s: Storage, moduleName: string, c: Counters, now: int): Storage
  {
    s[Key(moduleName) := Saved(Snapshot(c, now))]
  }

  /** `localStorage.removeItem` in `resetModuleProgress`. */
  function Remove(s: Storage, moduleName: string): Storage
  {
    s - {Key(moduleName)}
  }

  /** The outcome of `loadProgress`: the counters and storage afterwards, and its result. */
  datatype Loaded = Loaded(counters: Counters, storage: Storage, found: bool)

  /** `loadProgress(module)` from counters `c`: a missing or unreadable entry changes nothing and
      reports false; a readable one is assigned first, then, if it is older than seven days, the
      module is reset (counters zeroed, entry removed) and false reported. */
  function Load(s: Storage, moduleName: string, c: Counters, now: int): Loaded
  {
    if Key(moduleName) !in s then Loaded(c, s, false)
    else match s[Key(moduleName)]
      case Corrupt => Loaded(c, s, false)
      case Saved(p) =>
        if Expired(p, now) then Loaded(Initial, Remove(s, moduleName), false)
        else Loaded(Restore(p), s, true)
  }

  /** Saving and then loading within seven days restores every counter. */
  lemma SaveThenLoad(s: Storage, moduleName: string, c: Counters, saved: int, c0: Counters, now: int)
    requires c.currentPage != 0 && now - saved <= 7 * DayMs
    ensures Load(Save(s, moduleName, c, saved), moduleName, c0, now) == Loaded(c, Save(s, moduleName, c, saved), true)
  {
  }

  /** Loading progress saved more than seven days earlier removes it and resets every counter. */
  lemma SaveThenLoadExpired(s: Storage, moduleName: string, c: Counters, saved: int, c0: Counters, now: int)
    requires now - saved > 7 * DayMs
    ensures Load(Save(s, moduleName, c, saved), moduleName, c0, now) == Loaded(Initial, Remove(s, moduleName), false)
  {
    assert Remove(Save(s, moduleName, c, saved), moduleName) == Remove(s, moduleName);
  }

  /** After a reset nothing is found, and the counters are left as they are. */
  lemma RemoveThenLoad(s: Storage, moduleName: string, c: Counters, now: int)
    ensures Load(Remove(s, moduleName), moduleName, c, now) == Loaded(c, Remove(s, moduleName), false)
  {
  }

  /** Saving one module's progress does not change what loading another module does to the
      counters. */
  lemma SaveOtherModule(s: Storage, m: string, other: string, c: Counters, saved: int, c0: Counters, now: int)
    requires m != other
    ensures Load(Save(s, other, c, saved), m, c0, now).counters == Load(s, m, c0, now).counters
    ensures Load(Save(s, other, c, saved), m, c0, now).found == Load(s, m, c0, now).found
  {
    KeyInjective(m, other);
  }

  /** The number of questions of a module, 0 for a module the bank does not have. */
  function SizeOf<Q>(bank: map<string, seq<Q>>, moduleName: string): nat
  {
    if moduleName in bank then |bank[moduleName]| else 0
  }

  /** Every record stored under a module's key restores coherent counters for that module. */
  ghost predicate StorageCoherent<Q>(s: Storage, bank: map<string, seq<Q>>)
  {
    forall m :: Key(m) in s && s[Key(m)].Saved? ==> Coherent(Restore(s[Key(m)].progress), SizeOf(bank, m))
  }

  lemma SaveKeepsStorageCoherent<Q>(s: Storage, bank: map<string, seq<Q>>, moduleName: string, c: Counters, now: int)
    requires StorageCoherent(s, bank) && Coherent(c, SizeOf(bank, moduleName))
    ensures StorageCoherent(Save(s, moduleName, c, now), bank)
  {
    var s' := Save(s, moduleName, c, now);
    forall m | Key(m) in s' && s'[Key(m)].Saved?
      ensures Coherent(Restore(s'[Key(m)].progress), SizeOf(bank, m))
    {
      KeyInjective(m, moduleName);
    }
  }

  lemma RemoveKeepsStorageCoherent<Q>(s: Storage, bank: map<string, seq<Q>>, moduleName: string)
    requires StorageCoherent(s, bank)
    ensures StorageCoherent(Remove(s, moduleName), bank)
  {
  }

  /** Progress that loading reports as found restores coherent counters for the module. */
  lemma LoadFoundCoherent<Q>(s: Storage, bank: map<string, seq<Q>>, moduleName: string, c: Counters, now: int)
    requires StorageCoherent(s, bank) && Load(s, moduleName, c, now).found
    ensures Coherent(Load(s, moduleName, c, now).counters, SizeOf(bank, moduleName))
  {
  }

  /** Loading keeps the storage coherent. */
  lemma LoadKeepsStorageCoherent<Q>(s: Storage, bank: map<string, seq<Q>>, moduleName: string, c: Counters, now: int)
    requires StorageCoherent(s, bank)
    ensures StorageCoherent(Load(s, moduleName, c, now).storage, bank)
  {
  }
}
