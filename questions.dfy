/** Question records, the per-module shuffle of questions and answers, and the lookup that
    finds the correct option after reordering (script.js `shuffleQuestions`,
    `createQuestionElement`). */
module Questions {
  import opened Shuffle

  /** One entry of the question bank: four answer strings and the letter of the correct one. */
  datatype Question = Question(id: string, question: string, answers: seq<string>, correctAnswer: string)

  /** A question as displayed: its answers in shuffled order, and for every display position the
      position the answer had in `answers`. */
  datatype ShuffledQuestion = ShuffledQuestion(source: Question, shuffledAnswers: seq<string>, shuffledIndices: seq<nat>)

  /** The option letters `prefixes`, indexed by original answer position. */
  const Prefixes: seq<string> := ["A", "B", "C", "D"]

  /** The literal `[0, 1, 2, 3]` each answer shuffle starts from. */
  const InitialIndices: seq<nat> := [0, 1, 2, 3]

  /** The bank's questions have four answers: `shuffledIndices` always starts with four entries. */
  predicate WellFormed(q: Question)
  {
    |q.answers| == 4
  }

  /** The seed of a module's shuffle: the character code of the last character of its name. */
  function SeedOf(moduleName: string): int
    requires moduleName != []
  {
    moduleName[|moduleName| - 1] as int
  }

  /** Whether display option `idx` is the correct one: the letter of its original position equals
      the question's correct letter (a position outside the four letters matches nothing). */
  function IsCorrect(sq: ShuffledQuestion, idx: nat): bool
    requires idx < |sq.shuffledIndices|
  {
    var original := sq.shuffledIndices[idx];
    original < |Prefixes| && Prefixes[original] == sq.source.correctAnswer
  }

  /** The answer shuffle of one question, drawing from seed counter value `seed`. */
  function Decorate(q: Question, rng: Generator, seed: int): ShuffledQuestion
  {
    ShuffledQuestion(q, FisherYates(q.answers, rng, seed), FisherYates(InitialIndices, rng, seed))
  }

  /** The answer shuffles of the first `n` questions of `qs` in list order, the first drawing
      from `seed`; each takes three values of the counter. */
  function DecoratePrefix(qs: seq<Question>, n: nat, rng: Generator, seed: int): (r: seq<ShuffledQuestion>)
    requires n <= |qs|
    ensures |r| == n
  {
    if n == 0 then []
    else DecoratePrefix(qs, n - 1, rng, seed) + [Decorate(qs[n - 1], rng, seed + 3 * (n - 1))]
  }

  /** What `shuffleQuestions` leaves in `shuffledQuestions`: the questions shuffled first, then
      the answers of each question in list order, all from one running seed counter. */
  function ShuffledBank(qs: seq<Question>, rng: Generator, seed: int): seq<ShuffledQuestion>
  {
    var order := FisherYates(qs, rng, seed);
    DecoratePrefix(order, |order|, rng, seed + Draws(|qs|))
  }

  /** One more question of the prefix: its answer shuffle is appended. */
  lemma DecoratePrefixStep(qs: seq<Question>, n: nat, rng: Generator, seed: int, at: int, prefix: seq<ShuffledQuestion>, sq: ShuffledQuestion)
    requires n < |qs| && at == seed + 3 * n
    requires prefix == DecoratePrefix(qs, n, rng, seed) && sq == Decorate(qs[n], rng, at)
    ensures prefix + [sq] == DecoratePrefix(qs, n + 1, rng, seed)
  {
  }

  /** Entry `k` of a prefix is the answer shuffle of question `k`, drawing from `seed + 3 * k`. */
  lemma {:induction false} DecoratePrefixAt(qs: seq<Question>, n: nat, rng: Generator, seed: int, k: nat)
    requires k < n <= |qs|
    ensures DecoratePrefix(qs, n, rng, seed)[k] == Decorate(qs[k], rng, seed + 3 * k)
  {
    var prev := DecoratePrefix(qs, n - 1, rng, seed);
    var last := Decorate(qs[n - 1], rng, seed + 3 * (n - 1));
    assert DecoratePrefix(qs, n, rng, seed) == prev + [last];
    if k < n - 1 {
      DecoratePrefixAt(qs, n - 1, rng, seed, k);
      assert (prev + [last])[k] == prev[k];
    } else {
      assert (prev + [last])[k] == last;
    }
  }

  /** The questions behind a list of displayed questions. */
  function Sources(sqs: seq<ShuffledQuestion>): seq<Question>
  {
    seq(|sqs|, k requires 0 <= k < |sqs| => sqs[k].source)
  }

  /** The invariant of a displayed question: the indices are a permutation of `[0, 1, 2, 3]`, and
      the answer shown at position `k` is the original answer at position `shuffledIndices[k]`. */
  ghost predicate Consistent(sq: ShuffledQuestion)
  {
    && |sq.shuffledIndices| == 4
    && multiset(sq.shuffledIndices) == multiset(InitialIndices)
    && Distinct(sq.shuffledIndices)
    && Tracks(sq.shuffledAnswers, sq.shuffledIndices, sq.source.answers)
  }

  /** The answer shuffle of a well-formed question yields a consistent question. */
  lemma DecorateConsistent(q: Question, rng: Generator, seed: int)
    requires WellFormed(q)
    ensures Consistent(Decorate(q, rng, seed))
  {
    assert InitialIndices == Iota(4);
    FisherYatesPermutes(InitialIndices, rng, seed);
    FisherYatesKeepsDistinct(InitialIndices, rng, seed);
    FisherYatesTracksOrigin(q.answers, rng, seed);
  }

  /** Exactly one displayed option is marked correct when the correct letter is one of A to D,
      and none otherwise. */
  lemma ExactlyOneCorrect(sq: ShuffledQuestion)
    requires Consistent(sq)
    ensures sq.source.correctAnswer in Prefixes ==>
      exists k :: 0 <= k < 4 && IsCorrect(sq, k) && forall k' :: 0 <= k' < 4 && IsCorrect(sq, k') ==> k' == k
    ensures sq.source.correctAnswer !in Prefixes ==> forall k :: 0 <= k < 4 ==> !IsCorrect(sq, k)
  {
    var idx := sq.shuffledIndices;
    if sq.source.correctAnswer in Prefixes {
      var letter :| 0 <= letter < 4 && Prefixes[letter] == sq.source.correctAnswer;
      assert letter in multiset(InitialIndices);
      assert letter in idx;
      var k :| 0 <= k < 4 && idx[k] == letter;
      assert IsCorrect(sq, k);
      forall k' | 0 <= k' < 4 && IsCorrect(sq, k') ensures k' == k {
        assert Prefixes[idx[k']] == Prefixes[letter];
        assert idx[k'] == letter;
      }
    }
  }

  /** Shuffling the bank of a module keeps every question exactly once, and every displayed
      question consistent. */
  lemma ShuffledBankFacts(qs: seq<Question>, rng: Generator, seed: int)
    requires forall q :: q in qs ==> WellFormed(q)
    ensures |ShuffledBank(qs, rng, seed)| == |qs|
    ensures multiset(Sources(ShuffledBank(qs, rng, seed))) == multiset(qs)
    ensures forall k :: 0 <= k < |qs| ==> Consistent(ShuffledBank(qs, rng, seed)[k])
  {
    var order := FisherYates(qs, rng, seed);
    FisherYatesPermutes(qs, rng, seed);
    var r := ShuffledBank(qs, rng, seed);
    forall k | 0 <= k < |qs| ensures r[k].source == order[k] {
      DecoratePrefixAt(order, |order|, rng, seed + Draws(|qs|), k);
    }
    assert Sources(r) == order;
    forall k | 0 <= k < |qs| ensures Consistent(r[k]) {
      BankEntryConsistent(qs, rng, seed, k);
    }
  }

  /** Entry `k` of the bank decorates the `k`-th question of the shuffled order, which is one
      of the module's questions. */
  lemma BankAt(qs: seq<Question>, rng: Generator, seed: int, k: nat)
    requires k < |qs|
    ensures |FisherYates(qs, rng, seed)| == |qs| && |ShuffledBank(qs, rng, seed)| == |qs|
    ensures FisherYates(qs, rng, seed)[k] in qs
    ensures ShuffledBank(qs, rng, seed)[k]
         == Decorate(FisherYates(qs, rng, seed)[k], rng, seed + Draws(|qs|) + 3 * k)
  {
    var order := FisherYates(qs, rng, seed);
    FisherYatesPermutes(qs, rng, seed);
    DecoratePrefixAt(order, |order|, rng, seed + Draws(|qs|), k);
    assert order[k] in multiset(order);
  }

  lemma BankEntryConsistent(qs: seq<Question>, rng: Generator, seed: int, k: nat)
    requires forall q :: q in qs ==> WellFormed(q)
    requires k < |qs|
    ensures |ShuffledBank(qs, rng, seed)| == |qs|
    ensures Consistent(ShuffledBank(qs, rng, seed)[k])
  {
    BankAt(qs, rng, seed, k);
    var q := FisherYates(qs, rng, seed)[k];
    DecorateConsistentAt(q, rng, seed + Draws(|qs|) + 3 * k, ShuffledBank(qs, rng, seed)[k]);
  }

  /** `DecorateConsistent` for a question known only to equal an answer shuffle. */
  lemma DecorateConsistentAt(q: Question, rng: Generator, seed: int, sq: ShuffledQuestion)
    requires WellFormed(q) && sq == Decorate(q, rng, seed)
    ensures Consistent(sq)
  {
    DecorateConsistent(q, rng, seed);
  }

  lemma ShuffleKeepsWellFormed(qs: seq<Question>, rng: Generator, seed: int, order: seq<Question>)
    requires forall q :: q in qs ==> WellFormed(q)
    requires order == FisherYates(qs, rng, seed)
    ensures forall k :: 0 <= k < |order| ==> WellFormed(order[k])
  {
    FisherYatesPermutes(qs, rng, seed);
    forall k | 0 <= k < |order| ensures WellFormed(order[k]) {
      assert order[k] in multiset(order);
    }
  }

  /** Two modules whose names end in the same character get the same order. */
  lemma ShuffleDependsOnLastCharacter(m1: string, m2: string, qs: seq<Question>, rng: Generator)
    requires m1 != [] && m2 != [] && m1[|m1| - 1] == m2[|m2| - 1]
    ensures ShuffledBank(qs, rng, SeedOf(m1)) == ShuffledBank(qs, rng, SeedOf(m2))
  {
  }

  /** The answer loop of `shuffleQuestions` for one question: the answers and the index map are
      swapped in parallel on two fresh arrays. Returns the seed counter after the loop. */
  method ShuffleAnswers(q: Question, rng: Generator, seed: int) returns (sq: ShuffledQuestion, next: int)
    requires WellFormed(q)
    ensures sq == Decorate(q, rng, seed)
    ensures next == seed + 3
  {
    var answers := new string[4](k requires 0 <= k < 4 => q.answers[k]);
    var indices := new nat[4](k requires 0 <= k < 4 => InitialIndices[k]);
    assert answers[..] == q.answers && indices[..] == InitialIndices;
    next := ShuffleInParallel(answers, indices, rng, seed);
    sq := ShuffledQuestion(q, answers[..], indices[..]);
  }

  /** The loop `for (i = 3; i > 0; i--)` swapping the answers and the index map at the same
      positions with the same draw. */
  method ShuffleInParallel(answers: array<string>, indices: array<nat>, rng: Generator, seed: int) returns (next: int)
    requires answers.Length == indices.Length == 4
    modifies answers, indices
    ensures answers[..] == FisherYates(old(answers[..]), rng, seed)
    ensures indices[..] == FisherYates(old(indices[..]), rng, seed)
    ensures next == seed + 3
  {
    ghost var shuffledAnswers := FisherYates(answers[..], rng, seed);
    ghost var shuffledIndices := FisherYates(indices[..], rng, seed);
    next := seed;
    var i := 3;
    while i > 0
      invariant 0 <= i <= 3
      invariant next == seed + (3 - i)
      invariant shuffledAnswers == Passes(answers[..], rng, next, i)
      invariant shuffledIndices == Passes(indices[..], rng, next, i)
    {
      var j := Draw(rng, next, i);
      PassesStep(answers[..], rng, next, i);
      PassesStep(indices[..], rng, next, i);
      SwapAt(answers, i, j);
      SwapAt(indices, i, j);
      next := next + 1;
      i := i - 1;
    }
  }

  /** The `forEach` over the shuffled questions: each question's answers are shuffled in list
      order, the seed counter running on from one question to the next. */
  method ShuffleAllAnswers(order: seq<Question>, rng: Generator, seed: int) returns (shuffled: seq<ShuffledQuestion>, next: int)
    requires forall k :: 0 <= k < |order| ==> WellFormed(order[k])
    ensures shuffled == DecoratePrefix(order, |order|, rng, seed)
    ensures next == seed + 3 * |order|
  {
    shuffled := [];
    next := seed;
    for k := 0 to |order|
      invariant next == seed + 3 * k
      invariant shuffled == DecoratePrefix(order, k, rng, seed)
    {
      ghost var before := next;
      var sq;
      sq, next := ShuffleAnswers(order[k], rng, next);
      DecoratePrefixStep(order, k, rng, seed, before, shuffled, sq);
      shuffled := shuffled + [sq];
    }
  }

  /** The answer pass as it follows the question pass: `order` is the shuffled question list and
      `seed` the counter value the question pass left behind. */
  method ShuffleOrderAnswers(ghost questions: seq<Question>, ghost s0: int, order: seq<Question>, rng: Generator, seed: int) returns (shuffled: seq<ShuffledQuestion>)
    requires forall q :: q in questions ==> WellFormed(q)
    requires order == FisherYates(questions, rng, s0) && seed == s0 + Draws(|questions|)
    ensures shuffled == ShuffledBank(questions, rng, s0)
  {
    ShuffleKeepsWellFormed(questions, rng, s0, order);
    var next;
    shuffled, next := ShuffleAllAnswers(order, rng, seed);
  }

  /** `shuffleQuestions` for a module: a copy of its questions is shuffled in place, then each
      question's answers are shuffled, the seed counter running on throughout. */
  method ShuffleQuestions(moduleName: string, questions: seq<Question>, rng: Generator) returns (shuffled: seq<ShuffledQuestion>)
    requires moduleName != []
    requires forall q :: q in questions ==> WellFormed(q)
    ensures shuffled == ShuffledBank(questions, rng, SeedOf(moduleName))
  {
    var a := new Question[|questions|](k requires 0 <= k < |questions| => questions[k]);
    assert a[..] == questions;
    var seed := ShuffleInPlace(a, rng, SeedOf(moduleName));
    shuffled := ShuffleOrderAnswers(questions, SeedOf(moduleName), a[..], rng, seed);
  }
}
