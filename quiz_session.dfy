/** The quiz session of script.js: the closure variables of the `DOMContentLoaded` handler as
    the fields of one object, and the handlers that update them. `localStorage` is the `storage`
    field; the current time is a parameter of every handler that saves or loads. */
module QuizApp {
  import opened Shuffle
  import opened Questions
  import opened Pagination
  import opened Results
  import opened SessionState

  /** The question bank `quizData`: every module has a non-empty name and four answers per
      question. */
  ghost predicate BankOk(bank: map<string, seq<Question>>)
  {
    forall m :: m in bank ==> m != [] && forall q :: q in bank[m] ==> WellFormed(q)
  }

  class QuizSession {
    /** `quizData`, loaded once. */
    const bank: map<string, seq<Question>>
    /** The generator standing for `seededRandom`'s sine formula. */
    const rng: Generator

    var currentModule: string
    var currentQuestions: seq<Question>
    var shuffledQuestions: seq<ShuffledQuestion>
    var currentPage: int
    var score: int
    var answeredQuestions: set<nat>
    var userAnswers: map<nat, nat>
    var correctAnswersCount: int
    var storage: Storage

    function Counters(): Counters
      reads this
    {
      SessionState.Counters(score, answeredQuestions, userAnswers, currentPage, correctAnswersCount)
    }

    /** The session invariant: the question lists belong to the current module and the counters
        are coherent for its shuffled list. */
    ghost predicate Valid()
      reads this
    {
      ListOk() && Coherent(Counters(), |shuffledQuestions|)
    }

    /** The invariant but for the counters: the shuffled list has one entry per question of the
        current module (none before a module is started), every displayed question has its four
        indices, and everything stored is coherent. */
    ghost predicate ListOk()
      reads this
    {
      && BankOk(bank)
      && currentQuestions == (if currentModule in bank then bank[currentModule] else [])
      && |shuffledQuestions| == SizeOf(bank, currentModule)
      && (forall k :: 0 <= k < |shuffledQuestions| ==> |shuffledQuestions[k].shuffledIndices| == OptionCount)
      && StorageCoherent(storage, bank)
    }

    /** The state the page starts in, over the storage the browser already holds. */
    constructor(bank: map<string, seq<Question>>, rng: Generator, storage: Storage)
      requires BankOk(bank) && StorageCoherent(storage, bank)
      ensures Valid()
      ensures this.bank == bank && this.rng == rng && this.storage == storage
      ensures currentModule == "" && shuffledQuestions == [] && Counters() == Initial
    {
      this.bank := bank;
      this.rng := rng;
      currentModule := "";
      currentQuestions := [];
      shuffledQuestions := [];
      currentPage := 1;
      score := 0;
      answeredQuestions := {};
      userAnswers := map[];
      correctAnswersCount := 0;
      this.storage := storage;
    }

    /** `saveProgress`: the counters are stored under the current module's key. */
    method SaveProgress(now: int)
      requires Valid()
      modifies this
      ensures Valid()
      ensures storage == Save(old(storage), currentModule, Counters(), now)
      ensures Counters() == old(Counters())
      ensures currentModule == old(currentModule) && currentQuestions == old(currentQuestions)
      ensures shuffledQuestions == old(shuffledQuestions)
    {
      SaveKeepsStorageCoherent(storage, bank, currentModule, Counters(), now);
      storage := storage[Key(currentModule) := Saved(Snapshot(Counters(), now))];
    }

    /** `resetModuleProgress`: the module's entry is removed and the counters zeroed. */
    method ResetModuleProgress(moduleName: string)
      modifies this
      ensures storage == Remove(old(storage), moduleName) && Counters() == Initial
      ensures currentModule == old(currentModule) && currentQuestions == old(currentQuestions)
      ensures shuffledQuestions == old(shuffledQuestions)
    {
      storage := storage - {Key(moduleName)};
      score := 0;
      answeredQuestions := {};
      userAnswers := map[];
      currentPage := 1;
      correctAnswersCount := 0;
    }

    /** `loadProgress`: the stored record, if readable, is assigned to the counters before its
        age is checked; an expired record is then reset. */
    method LoadProgress(moduleName: string, now: int) returns (found: bool)
      modifies this
      ensures Load(old(storage), moduleName, old(Counters()), now) == Loaded(Counters(), storage, found)
      ensures currentModule == old(currentModule) && currentQuestions == old(currentQuestions)
      ensures shuffledQuestions == old(shuffledQuestions)
    {
      var key := Key(moduleName);
      if key !in storage {
        return false;
      }
      match storage[key]
      case Corrupt =>
        return false;
      case Saved(p) =>
        var restored := Restore(p);
        score := restored.score;
        answeredQuestions := restored.answered;
        userAnswers := restored.userAnswers;
        currentPage := restored.currentPage;
        correctAnswersCount := restored.correctCount;
        if Expired(p, now) {
          ResetModuleProgress(moduleName);
          return false;
        }
        return true;
    }

    /** `startQuiz`: an unknown module changes nothing; otherwise the module's questions are
        shuffled and its saved progress restored, or the counters start afresh. */
    method StartQuiz(moduleName: string, now: int)
      requires Valid()
      modifies this
      ensures Valid()
      ensures moduleName !in bank ==>
        && Counters() == old(Counters()) && storage == old(storage)
        && currentModule == old(currentModule) && shuffledQuestions == old(shuffledQuestions)
      ensures moduleName in bank ==>
        var loaded := Load(old(storage), moduleName, old(Counters()), now);
        && currentModule == moduleName
        && shuffledQuestions == ShuffledBank(bank[moduleName], rng, SeedOf(moduleName))
        && storage == loaded.storage
        && Counters() == (if loaded.found then loaded.counters else Initial)
    {
      if moduleName !in bank {
        return;
      }
      SelectModule(moduleName);
      var hasProgress := RestoreProgress(now);
    }

    /** The first half of `startQuiz`: the module becomes current and its questions are
        shuffled; the counters and the storage are not touched yet. */
    method SelectModule(moduleName: string)
      requires ListOk() && moduleName in bank
      modifies this
      ensures ListOk()
      ensures currentModule == moduleName
      ensures shuffledQuestions == ShuffledBank(bank[moduleName], rng, SeedOf(moduleName))
      ensures Counters() == old(Counters()) && storage == old(storage)
    {
      var questions := bank[moduleName];
      currentModule := moduleName;
      currentQuestions := questions;
      shuffledQuestions := ShuffleQuestions(moduleName, questions, rng);
      StartedListFacts(bank, moduleName, rng, shuffledQuestions);
    }

    /** The second half of `startQuiz`: the saved progress of the current module is loaded, and
        when none is found the counters start afresh. */
    method RestoreProgress(now: int) returns (hasProgress: bool)
      requires ListOk()
      modifies this
      ensures Valid()
      ensures var loaded := Load(old(storage), currentModule, old(Counters()), now);
        && hasProgress == loaded.found
        && storage == loaded.storage
        && Counters() == (if loaded.found then loaded.counters else Initial)
      ensures currentModule == old(currentModule) && shuffledQuestions == old(shuffledQuestions)
    {
      ghost var c0 := Counters();
      ghost var s0 := storage;
      hasProgress := LoadProgress(currentModule, now);
      if !hasProgress {
        score := 0;
        currentPage := 1;
        answeredQuestions := {};
        userAnswers := map[];
        correctAnswersCount := 0;
      }
      LoadedSessionOk(bank, currentModule, |shuffledQuestions|, s0, c0, now, Counters(), storage);
    }

    /** `resetProgress` after the user confirms: the module's entry is removed and the quiz
        restarted, which then finds nothing stored and starts from zero. */
    method ResetProgress(confirmed: bool, now: int)
      requires Valid()
      modifies this
      ensures Valid()
      ensures !confirmed ==> Counters() == old(Counters()) && storage == old(storage)
      ensures confirmed ==> Counters() == Initial && storage == Remove(old(storage), old(currentModule))
      ensures currentModule == old(currentModule)
      ensures currentModule in bank && confirmed ==> shuffledQuestions == ShuffledBank(bank[currentModule], rng, SeedOf(currentModule))
      ensures !confirmed ==> shuffledQuestions == old(shuffledQuestions)
    {
      if confirmed {
        var moduleName := currentModule;
        ResetModuleProgress(moduleName);
        RemoveKeepsStorageCoherent(old(storage), bank, moduleName);
        InitialCoherent(|shuffledQuestions|);
        RemoveThenLoad(old(storage), moduleName, Initial, now);
        StartQuiz(moduleName, now);
      }
    }

    /** `handleAnswerSelection` for option `option` of displayed question `q`: nothing happens
        for a question already answered; otherwise the answer is recorded, the score rises when
        the option is the correct one, and the progress is saved. */
    method HandleAnswerSelection(q: nat, option: nat, now: int)
      requires Valid() && q < |shuffledQuestions| && option < OptionCount
      modifies this
      ensures currentModule == old(currentModule) && shuffledQuestions == old(shuffledQuestions)
      ensures Valid()
      ensures Counters() == Answer(old(Counters()), q, option, IsCorrect(shuffledQuestions[q], option))
      ensures storage == if q in old(answeredQuestions) then old(storage)
                         else Save(old(storage), currentModule, Counters(), now)
    {
      if q in answeredQuestions {
        return;
      }
      RecordAnswer(q, option);
      SaveProgress(now);
    }

    /** The counter updates of `handleAnswerSelection` for an unanswered question (the score
        through `increaseScore`, then `correctAnswersCount`, the answered set and the answer). */
    method RecordAnswer(q: nat, option: nat)
      requires Valid() && q < |shuffledQuestions| && option < OptionCount && q !in answeredQuestions
      modifies this
      ensures currentModule == old(currentModule) && shuffledQuestions == old(shuffledQuestions)
      ensures Valid()
      ensures Counters() == Answer(old(Counters()), q, option, IsCorrect(shuffledQuestions[q], option))
      ensures storage == old(storage) && currentQuestions == old(currentQuestions)
    {
      var isCorrect := IsCorrect(shuffledQuestions[q], option);
      AnswerKeepsCoherent(Counters(), |shuffledQuestions|, q, option, isCorrect);
      if isCorrect {
        score := score + 1;
        correctAnswersCount := correctAnswersCount + 1;
      }
      answeredQuestions := answeredQuestions + {q};
      userAnswers := userAnswers[q := option];
    }

    /** `navigateToPreviousPage`: one page back and a save, unless on page 1. */
    method NavigateToPreviousPage(now: int)
      requires Valid()
      modifies this
      ensures Valid()
      ensures Counters() == old(Counters()).(currentPage := PrevPage(old(currentPage)))
      ensures storage == if old(currentPage) > 1 then Save(old(storage), currentModule, Counters(), now) else old(storage)
      ensures currentModule == old(currentModule) && shuffledQuestions == old(shuffledQuestions)
    {
      if currentPage > 1 {
        NavigationKeepsPageValid(currentPage, |shuffledQuestions|);
        currentPage := currentPage - 1;
        SaveProgress(now);
      }
    }

    /** `navigateToNextPage`: one page on and a save, unless on the last page. */
    method NavigateToNextPage(now: int)
      requires Valid()
      modifies this
      ensures Valid()
      ensures Counters() == old(Counters()).(currentPage := NextPage(old(currentPage), |shuffledQuestions|))
      ensures storage == if old(currentPage) < TotalPages(|shuffledQuestions|)
                         then Save(old(storage), currentModule, Counters(), now) else old(storage)
      ensures currentModule == old(currentModule) && shuffledQuestions == old(shuffledQuestions)
    {
      var totalPages := TotalPages(|shuffledQuestions|);
      if currentPage < totalPages {
        NavigationKeepsPageValid(currentPage, |shuffledQuestions|);
        currentPage := currentPage + 1;
        SaveProgress(now);
      }
    }

    /** `restartQuiz` after the user confirms: back to page 1, answers kept, nothing saved. */
    method RestartQuiz(confirmed: bool)
      requires Valid()
      modifies this
      ensures Valid()
      ensures Counters() == old(Counters()).(currentPage := if confirmed then 1 else old(currentPage))
      ensures storage == old(storage)
      ensures currentModule == old(currentModule) && shuffledQuestions == old(shuffledQuestions)
    {
      if confirmed {
        currentPage := 1;
      }
    }

    /** The prev/next `disabled` flags `updatePagination` sets, with its last-page test
        `currentPage === totalPages`. A disabled button is always a no-op; the next button of an
        empty module, on page 1 of 0 pages, is the one no-op left enabled. */
    function PaginationButtons(): (disabled: (bool, bool))
      requires Valid()
      reads this
      ensures disabled.0 <==> PrevPage(currentPage) == currentPage
      ensures disabled.1 ==> NextPage(currentPage, |shuffledQuestions|) == currentPage
      ensures |shuffledQuestions| > 0 ==> (disabled.1 <==> NextPage(currentPage, |shuffledQuestions|) == currentPage)
    {
      ButtonsAsWritten(currentPage, |shuffledQuestions|)
    }

    /** The indices of the questions `displayQuestions` renders. */
    function DisplayedQuestions(): (r: seq<nat>)
      reads this
      ensures forall k :: 0 <= k < |r| ==> r[k] < |shuffledQuestions|
    {
      DisplayedIndices(currentPage, |shuffledQuestions|)
    }

    /** The figures `updateResultsSummary` writes: never more answered than questions, never more
        correct than answered, and a rate between 0 and 100. */
    function ResultsSummary(): (r: Summary)
      requires Valid()
      reads this
      ensures r.answered <= r.total && r.correct <= r.answered && r.accuracy <= 100
      ensures r.total == |shuffledQuestions| && r.answered == |answeredQuestions| && r.correct == correctAnswersCount
    {
      ScoreBounded(Counters(), |shuffledQuestions|);
      AccuracyIsPercentage(correctAnswersCount, |answeredQuestions|);
      Summary(|shuffledQuestions|, |answeredQuestions|, correctAnswersCount, Accuracy(correctAnswersCount, |answeredQuestions|))
    }
  }

  /** Counters restored from coherent storage, or reset when nothing was found, are coherent
      for the module, and loading leaves the storage coherent. */
  lemma LoadedSessionOk(bank: map<string, seq<Question>>, moduleName: string, n: nat,
                        s0: Storage, c0: Counters, now: int, c: Counters, s: Storage)
    requires StorageCoherent(s0, bank) && n == SizeOf(bank, moduleName)
    requires s == Load(s0, moduleName, c0, now).storage
    requires c == if Load(s0, moduleName, c0, now).found then Load(s0, moduleName, c0, now).counters else Initial
    ensures Coherent(c, n) && StorageCoherent(s, bank)
  {
    if Load(s0, moduleName, c0, now).found {
      LoadFoundCoherent(s0, bank, moduleName, c0, now);
    } else {
      InitialCoherent(n);
    }
    LoadKeepsStorageCoherent(s0, bank, moduleName, c0, now);
  }

  /** What `StartQuiz` needs of a freshly shuffled module. */
  lemma StartedListFacts(bank: map<string, seq<Question>>, moduleName: string, rng: Generator, shuffled: seq<ShuffledQuestion>)
    requires BankOk(bank) && moduleName in bank
    requires shuffled == ShuffledBank(bank[moduleName], rng, SeedOf(moduleName))
    ensures |shuffled| == SizeOf(bank, moduleName)
    ensures forall k :: 0 <= k < |shuffled| ==> |shuffled[k].shuffledIndices| == OptionCount
  {
    ShuffledBankFacts(bank[moduleName], rng, SeedOf(moduleName));
  }
}
