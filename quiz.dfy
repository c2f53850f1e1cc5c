/**
 * The quiz engine of the quiz screen: it loads one category's questions, keeps the question
 * index, the selected option, the running score, the answer log and a 15-unit countdown,
 * and on the last question stores the session result for the result screen.
 *
 * Session is the screen's state as a value and Started, Loaded, Selected, Advanced and Ticked
 * are its transitions; the class QuizScreen holds the same state in fields and its methods are
 * proved to perform exactly those transitions.
 */
module Quiz {
  import opened Model

  const TimerStart: nat := 15
  const NoAnswer: string := "No answer"
  const LoadError: string := "Failed to load questions."
  const DefaultCategory: string := "Unknown"

  datatype Question = Question(question: string, options: seq<string>, answer: string)

  /** One entry of the answer log. */
  datatype AnswerRecord = AnswerRecord(question: string, userAnswer: string, answer: string, isCorrect: bool)

  /** The session result written to the `quizDetails` storage key. */
  datatype QuizResult = QuizResult(category: string, score: int, userAnswers: seq<AnswerRecord>)

  type Categories = map<string, seq<Question>>

  /** The fetched question document: its `record.categories` and its `record[0].categories`. */
  datatype QuestionDoc = QuestionDoc(categories: Option<Categories>, firstCategories: Option<Categories>)

  datatype Session = Session(
    category: string,
    questions: seq<Question>,
    loading: bool,
    error: string,
    current: nat,
    selected: string,
    score: int,
    answers: seq<AnswerRecord>,
    timer: nat,
    saved: Option<QuizResult>)

  // ---------------------------------------------------------------- trimming

  /** The characters `String.prototype.trim` removes: ECMAScript WhiteSpace and LineTerminator. */
  predicate IsJsSpace(c: char)
  {
    || c == '\t' || c == '\n' || c == '\U{000B}' || c == '\U{000C}' || c == '\r' || c == ' '
    || c == '\U{00A0}' || c == '\U{1680}' || ('\U{2000}' <= c <= '\U{200A}')
    || c == '\U{2028}' || c == '\U{2029}' || c == '\U{202F}' || c == '\U{205F}'
    || c == '\U{3000}' || c == '\U{FEFF}'
  }

  function TrimStart(s: string): string
  {
    if s != [] && IsJsSpace(s[0]) then TrimStart(s[1..]) else s
  }

  function TrimEnd(s: string): string
  {
    if s != [] && IsJsSpace(s[|s| - 1]) then TrimEnd(s[..|s| - 1]) else s
  }

  lemma {:induction false} TrimStartSuffix(s: string)
    ensures |TrimStart(s)| <= |s| && TrimStart(s) == s[|s| - |TrimStart(s)|..]
  {
    if s != [] && IsJsSpace(s[0]) {
      TrimStartSuffix(s[1..]);
      assert s[1..][|s| - 1 - |TrimStart(s)|..] == s[|s| - |TrimStart(s)|..];
    }
  }

  lemma {:induction false} TrimStartDropsSpaces(s: string)
    ensures |TrimStart(s)| <= |s|
    ensures forall i :: 0 <= i < |s| - |TrimStart(s)| ==> IsJsSpace(s[i])
  {
    TrimStartSuffix(s);
    if s != [] && IsJsSpace(s[0]) {
      var tail := s[1..];
      TrimStartDropsSpaces(tail);
      forall i | 0 <= i < |s| - |TrimStart(s)| ensures IsJsSpace(s[i]) {
        if i > 0 {
          assert s[i] == tail[i - 1];
        }
      }
    }
  }

  lemma {:induction false} TrimStartStops(s: string)
    ensures TrimStart(s) != [] ==> !IsJsSpace(TrimStart(s)[0])
  {
    if s != [] && IsJsSpace(s[0]) {
      TrimStartStops(s[1..]);
    }
  }

  /** TrimStart drops a prefix of spaces and stops at the first non-space. */
  lemma TrimStartSpec(s: string)
    ensures var r := TrimStart(s);
      && |r| <= |s| && r == s[|s| - |r|..]
      && (forall i :: 0 <= i < |s| - |r| ==> IsJsSpace(s[i]))
      && (r != [] ==> !IsJsSpace(r[0]))
  {
    TrimStartSuffix(s);
    TrimStartDropsSpaces(s);
    TrimStartStops(s);
  }

  /** TrimEnd drops a suffix of spaces and stops at the last non-space. */
  lemma {:induction false} TrimEndSpec(s: string)
    ensures var r := TrimEnd(s);
      && |r| <= |s| && r == s[..|r|]
      && (forall i :: |r| <= i < |s| ==> IsJsSpace(s[i]))
      && (r != [] ==> !IsJsSpace(r[|r| - 1]))
  {
    if s != [] && IsJsSpace(s[|s| - 1]) {
      var init := s[..|s| - 1];
      var r := TrimEnd(init);
      TrimEndSpec(init);
      assert TrimEnd(s) == r;
      assert init[..|r|] == s[..|r|];
      forall i | |r| <= i < |s| ensures IsJsSpace(s[i]) {
        if i < |s| - 1 {
          assert s[i] == init[i];
        }
      }
    }
  }

  /** `s.trim()`. */
  function Trim(s: string): string
  {
    TrimEnd(TrimStart(s))
  }

  /** Trim keeps a contiguous slice of its input, removes only spaces, and leaves no space at either end. */
  lemma TrimIsSlice(s: string)
    ensures exists i, j :: (0 <= i <= j <= |s| && Trim(s) == s[i..j]
      && (forall k :: 0 <= k < i ==> IsJsSpace(s[k]))
      && (forall k :: j <= k < |s| ==> IsJsSpace(s[k])))
    ensures Trim(s) != [] ==> !IsJsSpace(Trim(s)[0]) && !IsJsSpace(Trim(s)[|Trim(s)| - 1])
  {
    var t := TrimStart(s);
    var r := TrimEnd(t);
    TrimStartSpec(s);
    TrimEndSpec(t);
    var i := |s| - |t|;
    var j := i + |r|;
    assert r == s[i..j];
    assert forall k :: j <= k < |s| ==> s[k] == t[k - i];
    if r != [] {
      assert r[0] == t[0];
    }
  }

  lemma {:induction false} TrimEndKeepsFirst(t: string)
    requires t != [] && !IsJsSpace(t[0])
    ensures TrimEnd(t) != [] && TrimEnd(t)[0] == t[0]
  {
    if IsJsSpace(t[|t| - 1]) {
      TrimEndSpec(t);
      assert |t| > 1;
      TrimEndKeepsFirst(t[..|t| - 1]);
    }
  }

  /** Trimming a trimmed category changes nothing. */
  lemma TrimIdempotent(s: string)
    ensures Trim(Trim(s)) == Trim(s)
  {
    var r := Trim(s);
    TrimStartSpec(s);
    TrimEndSpec(TrimStart(s));
    if TrimStart(s) != [] {
      TrimEndKeepsFirst(TrimStart(s));
    }
    assert TrimStart(r) == r;
    assert TrimEnd(r) == r;
  }

  // ---------------------------------------------------------------- grading

  /** The category named by the `category` query parameter, "Unknown" when it is absent or empty. */
  function CategoryName(param: Option<string>): (c: string)
    ensures c != ""
    ensures Truthy(param) ==> c == param.value
    ensures !Truthy(param) ==> c == DefaultCategory
  {
    if Truthy(param) then param.value else DefaultCategory
  }

  /** The record `handleNext` appends for question `q` with selection `selected` ("" is no selection). */
  function Grade(q: Question, selected: string): AnswerRecord
  {
    AnswerRecord(q.question, if selected == "" then NoAnswer else selected, q.answer, selected == q.answer)
  }

  function Gain(r: AnswerRecord): int
  {
    if r.isCorrect then 1 else 0
  }

  /** The number of correct records in a log. */
  function CountCorrect(log: seq<AnswerRecord>): (n: nat)
    ensures n <= |log|
  {
    if log == [] then 0 else CountCorrect(log[..|log| - 1]) + Gain(log[|log| - 1])
  }

  lemma CountCorrectAppend(log: seq<AnswerRecord>, r: AnswerRecord)
    ensures CountCorrect(log + [r]) == CountCorrect(log) + Gain(r)
  {
    assert (log + [r])[..|log|] == log;
  }

  lemma GradedAppend(log: seq<AnswerRecord>, questions: seq<Question>, r: AnswerRecord)
    requires Graded(log, questions) && |log| < |questions|
    requires r.question == questions[|log|].question && r.answer == questions[|log|].answer
    requires Honest(r)
    ensures Graded(log + [r], questions)
  {
  }

  /** The record is correct exactly when the answer it shows is the right one. */
  predicate ShownAsScored(r: AnswerRecord)
  {
    r.isCorrect <==> r.userAnswer == r.answer
  }

  /** A right answer that a record can show without ambiguity: neither "" nor "No answer". */
  predicate Proper(answer: string)
  {
    answer != "" && answer != NoAnswer
  }

  /** The record shows what it scores unless its right answer is "" or "No answer". */
  predicate Honest(r: AnswerRecord)
  {
    Proper(r.answer) ==> ShownAsScored(r)
  }

  /**
   * Grading compares the selection with the answer, while the record shows "No answer" for an
   * empty selection; the two agree whenever the right answer is proper.
   */
  lemma GradeHonest(q: Question, selected: string)
    ensures Grade(q, selected).answer == q.answer
    ensures Honest(Grade(q, selected))
    ensures Proper(q.answer) ==> (Grade(q, selected).isCorrect <==> Grade(q, selected).userAnswer == q.answer)
  {
  }

  /** A question whose right answer is "No answer": a timeout shows the right answer yet scores nothing. */
  lemma NoAnswerMismatch(q: Question)
    requires q.answer == NoAnswer
    ensures Grade(q, "").userAnswer == q.answer && !Grade(q, "").isCorrect
  {
  }

  /** A question whose right answer is "": a timeout shows "No answer" yet scores a point. */
  lemma EmptyAnswerMismatch(q: Question)
    requires q.answer == ""
    ensures Grade(q, "").userAnswer == NoAnswer && Grade(q, "").userAnswer != q.answer && Grade(q, "").isCorrect
  {
  }

  /** The number of records that show the right answer. */
  function CountShown(log: seq<AnswerRecord>): (n: nat)
    ensures n <= |log|
  {
    if log == [] then 0
    else CountShown(log[..|log| - 1]) + (if log[|log| - 1].userAnswer == log[|log| - 1].answer then 1 else 0)
  }

  /** When every record shows what it scores, the score is the number of records showing the right answer. */
  lemma {:induction false} CountCorrectIsShown(log: seq<AnswerRecord>)
    requires forall i :: 0 <= i < |log| ==> ShownAsScored(log[i])
    ensures CountCorrect(log) == CountShown(log)
  {
    if log != [] {
      var init := log[..|log| - 1];
      assert forall i :: 0 <= i < |init| ==> init[i] == log[i];
      CountCorrectIsShown(init);
    }
  }

  // ---------------------------------------------------------------- invariant

  /** Record i of the log is about question i and shows what it scores when that question's answer is proper. */
  predicate Graded(log: seq<AnswerRecord>, questions: seq<Question>)
  {
    |log| <= |questions| &&
    forall i :: 0 <= i < |log| ==>
      log[i].question == questions[i].question && log[i].answer == questions[i].answer && Honest(log[i])
  }

  /** A finished session result: one record per question, the score counts the correct ones. */
  predicate Complete(r: QuizResult, questions: seq<Question>)
  {
    && |r.userAnswers| == |questions|
    && Graded(r.userAnswers, questions)
    && r.score == CountCorrect(r.userAnswers)
    && 0 <= r.score <= |questions|
  }

  /** The question index is in range whenever there are questions. */
  predicate InRange(s: Session)
  {
    s.questions != [] ==> s.current < |s.questions|
  }

  /** The engine's invariant: the log has one record per passed question and the score counts its correct records. */
  predicate Invariant(s: Session)
  {
    && InRange(s)
    && |s.answers| == s.current
    && s.score == CountCorrect(s.answers)
    && Graded(s.answers, s.questions)
    && (s.questions == [] ==> s.current == 0)
    && (s.loading ==> s.questions == [] && s.error == "" && s.saved.None?)
    && s.timer <= TimerStart
    && (s.saved.Some? ==> Complete(s.saved.value, s.questions))
  }

  // ---------------------------------------------------------------- transitions

  /** The state on mount. */
  function Started(param: Option<string>): (s: Session)
    ensures Invariant(s) && s.loading && s.saved.None?
  {
    Session(CategoryName(param), [], true, "", 0, "", 0, [], TimerStart, None)
  }

  /** `categoriesData[category]`, where `categoriesData` is `record.categories || record[0]?.categories`. */
  function Lookup(doc: QuestionDoc, category: string): Option<seq<Question>>
  {
    var cats := if doc.categories.Some? then doc.categories else doc.firstCategories;
    if cats.Some? && category in cats.value then Some(cats.value[category]) else None
  }

  /** The fetch effect finishing: `doc` is None when the fetch or the parse failed. */
  function Loaded(s: Session, doc: Option<QuestionDoc>): Session
  {
    var found := if doc.Some? then Lookup(doc.value, s.category) else None;
    if found.Some? then s.(loading := false, questions := found.value)
    else s.(loading := false, error := LoadError)
  }

  function Selected(s: Session, option: string): Session
  {
    s.(selected := option)
  }

  /**
   * `handleNext`: grade the current question; before the last question append the record,
   * add the point, clear the selection and move on (the index change resets the timer);
   * on the last question store the result and leave the rest of the state as it is.
   */
  function Advanced(s: Session): (r: Session)
    requires InRange(s)
    ensures InRange(r)
  {
    if s.questions == [] then s
    else
      var rec := Grade(s.questions[s.current], s.selected);
      var log := s.answers + [rec];
      var score := if rec.isCorrect then s.score + 1 else s.score;
      if s.current + 1 < |s.questions| then
        s.(answers := log, score := score, selected := "", current := s.current + 1, timer := TimerStart)
      else
        s.(saved := Some(QuizResult(Trim(s.category), score, log)))
  }

  /** One interval firing: `t > 0 ? t - 1 : 0`, and the effect on the timer advancing when it has just reached 0. */
  function Ticked(s: Session): (r: Session)
    requires InRange(s)
    ensures InRange(r)
  {
    if s.timer == 0 then s
    else if s.timer == 1 then Advanced(s.(timer := 0))
    else s.(timer := s.timer - 1)
  }

  /** The Next/Finish button's enabled state: `!(!selectedOption && timer > 0)`. */
  predicate CanAdvance(s: Session)
  {
    s.selected != "" || s.timer == 0
  }

  // ---------------------------------------------------------------- properties

  /** Loading ends the loading phase; an unknown category or a failed fetch is the error state. */
  lemma LoadedSpec(s: Session, doc: Option<QuestionDoc>)
    requires Invariant(s) && s.loading
    ensures Invariant(Loaded(s, doc))
    ensures !Loaded(s, doc).loading
    ensures (doc.None? || Lookup(doc.value, s.category).None?) <==> Loaded(s, doc).error == LoadError
    ensures (doc.None? || Lookup(doc.value, s.category).None?) ==> Loaded(s, doc).questions == []
    ensures doc.Some? && Lookup(doc.value, s.category).Some? ==> Loaded(s, doc).questions == Lookup(doc.value, s.category).value
    ensures Loaded(s, doc).current == 0 && Loaded(s, doc).answers == []
  {
  }

  /** With no questions loaded, advancing does nothing. */
  lemma AdvanceWithoutQuestions(s: Session)
    requires InRange(s) && s.questions == []
    ensures Advanced(s) == s
  {
  }

  /** A non-final advance appends exactly the graded record, scores it, clears the selection and moves on by one. */
  lemma AdvanceStep(s: Session)
    requires Invariant(s) && s.questions != [] && s.current + 1 < |s.questions|
    ensures var rec := Grade(s.questions[s.current], s.selected);
      && Advanced(s).answers == s.answers + [rec]
      && Advanced(s).answers[..|s.answers|] == s.answers
      && Advanced(s).score == s.score + Gain(rec)
      && (rec.isCorrect <==> s.selected == s.questions[s.current].answer)
    ensures Advanced(s).current == s.current + 1 < |s.questions|
    ensures Advanced(s).selected == "" && Advanced(s).timer == TimerStart
    ensures Advanced(s).saved == s.saved && Advanced(s).questions == s.questions
    ensures Invariant(Advanced(s))
  {
    var rec := Grade(s.questions[s.current], s.selected);
    CountCorrectAppend(s.answers, rec);
    GradeHonest(s.questions[s.current], s.selected);
    GradedAppend(s.answers, s.questions, rec);
  }

  /** The final advance stores the trimmed category, the new score and the full log, and changes nothing else. */
  lemma AdvanceFinal(s: Session)
    requires Invariant(s) && s.questions != [] && s.current + 1 == |s.questions|
    ensures var rec := Grade(s.questions[s.current], s.selected);
      Advanced(s) == s.(saved := Some(QuizResult(Trim(s.category), s.score + Gain(rec), s.answers + [rec])))
    ensures Advanced(s).saved.Some?
    ensures |Advanced(s).saved.value.userAnswers| == |s.questions|
    ensures 0 <= Advanced(s).saved.value.score <= |s.questions|
    ensures Advanced(s).saved.value.score == CountCorrect(Advanced(s).saved.value.userAnswers)
    ensures Invariant(Advanced(s))
  {
    var rec := Grade(s.questions[s.current], s.selected);
    var log := s.answers + [rec];
    CountCorrectAppend(s.answers, rec);
    GradeHonest(s.questions[s.current], s.selected);
    GradedAppend(s.answers, s.questions, rec);
    var score := s.score + Gain(rec);
    assert Complete(QuizResult(Trim(s.category), score, log), s.questions);
  }

  /** Every advance keeps the invariant. */
  lemma AdvancePreserves(s: Session)
    requires Invariant(s)
    ensures Invariant(Advanced(s))
  {
    if s.questions != [] {
      if s.current + 1 < |s.questions| { AdvanceStep(s); } else { AdvanceFinal(s); }
    }
  }

  predicate ProperAnswers(questions: seq<Question>)
  {
    forall i :: 0 <= i < |questions| ==> Proper(questions[i].answer)
  }

  /**
   * When no question's right answer is "" or "No answer", the running score and the stored score
   * are the number of records whose shown answer is the right one.
   */
  lemma ScoreCountsShown(s: Session)
    requires Invariant(s) && ProperAnswers(s.questions)
    ensures s.score == CountShown(s.answers)
    ensures s.saved.Some? ==> s.saved.value.score == CountShown(s.saved.value.userAnswers)
  {
    assert forall i :: 0 <= i < |s.answers| ==> s.answers[i].answer == s.questions[i].answer;
    CountCorrectIsShown(s.answers);
    if s.saved.Some? {
      var log := s.saved.value.userAnswers;
      assert forall i :: 0 <= i < |log| ==> log[i].answer == s.questions[i].answer;
      CountCorrectIsShown(log);
    }
  }

  /** Pressing Finish again before the result screen opens stores the same result once more. */
  lemma FinishIdempotent(s: Session)
    requires Invariant(s) && s.questions != [] && s.current + 1 == |s.questions|
    ensures Advanced(Advanced(s)) == Advanced(s)
  {
    AdvanceFinal(s);
  }

  /** A tick never goes below 0, counts down by one, and advances exactly when it reaches 0. */
  lemma TickSpec(s: Session)
    requires Invariant(s)
    ensures Invariant(Ticked(s))
    ensures s.timer == 0 ==> Ticked(s) == s
    ensures s.timer == 1 ==> Ticked(s) == Advanced(s.(timer := 0))
    ensures s.timer > 1 ==> Ticked(s) == s.(timer := s.timer - 1)
    ensures Ticked(s).current != s.current ==> Ticked(s).timer == TimerStart
  {
    if s.timer == 1 {
      AdvancePreserves(s.(timer := 0));
    }
  }

  /**
   * The button is enabled iff an option is selected or the time is up; with nothing selected it
   * stays disabled through every tick but the last, and selecting an option enables it.
   */
  lemma CanAdvanceSpec(s: Session, option: string)
    ensures CanAdvance(s) <==> s.selected != "" || s.timer == 0
    ensures InRange(s) && s.selected == "" && s.timer > 1 ==> !CanAdvance(Ticked(s))
    ensures option != "" ==> CanAdvance(Selected(s, option))
    ensures Invariant(s) ==> Invariant(Selected(s, option))
  {
  }

  /** `k` ticks of the countdown in a row. */
  function TickedN(s: Session, k: nat): (r: Session)
    requires InRange(s)
    ensures InRange(r)
    decreases k
  {
    if k == 0 then s else TickedN(Ticked(s), k - 1)
  }

  lemma {:induction false} TickedNInvariant(s: Session, k: nat)
    requires Invariant(s)
    ensures Invariant(TickedN(s, k))
    decreases k
  {
    if k > 0 {
      TickSpec(s);
      TickedNInvariant(Ticked(s), k - 1);
    }
  }

  lemma {:induction false} TickedNAdd(s: Session, a: nat, b: nat)
    requires InRange(s)
    ensures TickedN(s, a + b) == TickedN(TickedN(s, a), b)
    decreases a
  {
    if a > 0 {
      TickedNAdd(Ticked(s), a - 1, b);
    }
  }

  /** Letting the whole countdown run out is one advance with the timer at 0. */
  lemma {:induction false} CountdownExpires(s: Session)
    requires InRange(s) && s.timer > 0
    ensures TickedN(s, s.timer) == Advanced(s.(timer := 0))
    decreases s.timer
  {
    if s.timer > 1 {
      var s' := s.(timer := s.timer - 1);
      assert Ticked(s) == s';
      CountdownExpires(s');
      assert s'.(timer := 0) == s.(timer := 0);
    }
  }

  /** The log of questions none of which were answered in time. */
  function TimeoutLog(questions: seq<Question>): (log: seq<AnswerRecord>)
    ensures |log| == |questions|
  {
    if questions == [] then []
    else [AnswerRecord(questions[0].question, NoAnswer, questions[0].answer, false)] + TimeoutLog(questions[1..])
  }

  lemma {:induction false} TimeoutLogNoAnswer(questions: seq<Question>)
    ensures forall i :: 0 <= i < |questions| ==>
      TimeoutLog(questions)[i] == AnswerRecord(questions[i].question, NoAnswer, questions[i].answer, false)
    ensures CountCorrect(TimeoutLog(questions)) == 0
  {
    if questions != [] {
      TimeoutLogNoAnswer(questions[1..]);
      var log := TimeoutLog(questions);
      assert log[1..] == TimeoutLog(questions[1..]);
      CountCorrectPrefixZero(log);
    }
  }

  lemma {:induction false} CountCorrectPrefixZero(log: seq<AnswerRecord>)
    requires forall i :: 0 <= i < |log| ==> !log[i].isCorrect
    ensures CountCorrect(log) == 0
  {
    if log != [] {
      CountCorrectPrefixZero(log[..|log| - 1]);
    }
  }

  predicate NoEmptyAnswer(questions: seq<Question>)
  {
    forall i :: 0 <= i < |questions| ==> questions[i].answer != ""
  }

  /**
   * One question's countdown running out before the last question: a "No answer" record, no point,
   * next question with a full timer. The countdown may already have run down part of the way.
   */
  lemma TimeoutStep(s: Session)
    requires InRange(s) && s.questions != [] && s.current + 1 < |s.questions|
    requires s.selected == "" && s.timer > 0 && s.questions[s.current].answer != ""
    ensures var q := s.questions[s.current];
      TickedN(s, s.timer) == s.(answers := s.answers + [AnswerRecord(q.question, NoAnswer, q.answer, false)],
        current := s.current + 1, timer := TimerStart)
  {
    CountdownExpires(s);
  }

  /** The last question's countdown running out stores the result, with the log closed by one "No answer" record. */
  lemma TimeoutLast(s: Session)
    requires InRange(s) && s.questions != [] && s.current + 1 == |s.questions|
    requires s.timer > 0 && s.selected == "" && s.questions[s.current].answer != ""
    ensures TickedN(s, s.timer).saved
      == Some(QuizResult(Trim(s.category), s.score, s.answers + TimeoutLog(s.questions[s.current..])))
  {
    var q := s.questions[s.current];
    var rec := AnswerRecord(q.question, NoAnswer, q.answer, false);
    var rest := s.questions[s.current..];
    CountdownExpires(s);
    assert rest == [q];
    assert rest[1..] == [];
    assert TimeoutLog(rest) == [rec];
  }

  /** The timeout log of the remaining questions starts with the current question's record. */
  lemma TimeoutLogStep(s: Session)
    requires s.current < |s.questions|
    ensures var q := s.questions[s.current];
      s.answers + TimeoutLog(s.questions[s.current..])
        == (s.answers + [AnswerRecord(q.question, NoAnswer, q.answer, false)]) + TimeoutLog(s.questions[s.current + 1..])
  {
    var rest := s.questions[s.current..];
    assert rest[0] == s.questions[s.current] && rest[1..] == s.questions[s.current + 1..];
  }

  /** The ticks that let every remaining question time out: what is left of this countdown, then 15 per later question. */
  function TimeoutTicks(s: Session): (k: nat)
    requires InRange(s) && s.questions != []
    ensures s.timer == TimerStart ==> k == TimerStart * (|s.questions| - s.current)
  {
    s.timer + TimerStart * (|s.questions| - s.current - 1)
  }

  /** The ticks for the remaining questions are one countdown to the next question, then the ticks for the rest. */
  lemma TimeoutAdvance(s: Session) returns (next: Session)
    requires InRange(s) && s.current + 1 < |s.questions|
    requires s.selected == "" && s.timer > 0 && s.questions[s.current].answer != ""
    ensures var q := s.questions[s.current];
      next == s.(answers := s.answers + [AnswerRecord(q.question, NoAnswer, q.answer, false)],
        current := s.current + 1, timer := TimerStart)
    ensures InRange(next)
    ensures TickedN(s, TimeoutTicks(s)) == TickedN(next, TimeoutTicks(next))
  {
    var q := s.questions[s.current];
    next := s.(answers := s.answers + [AnswerRecord(q.question, NoAnswer, q.answer, false)],
      current := s.current + 1, timer := TimerStart);
    var t := s.timer;
    var rest := TimerStart * (|s.questions| - s.current - 1);
    assert TimeoutTicks(s) == t + rest;
    TimeoutStep(s);
    TickedNAdd(s, t, rest);
    assert TickedN(s, t + rest) == TickedN(TickedN(s, t), rest);
    assert rest == TimeoutTicks(next);
  }

  /**
   * With nothing ever selected, the rest of the current countdown and 15 ticks per later question
   * finish the quiz: the stored result has one "No answer" record per remaining question and no
   * extra point (given that no question's answer is the empty string, which an empty selection
   * would match).
   */
  lemma {:induction false} AllTimeouts(s: Session)
    requires InRange(s) && s.questions != [] && NoEmptyAnswer(s.questions)
    requires s.selected == "" && s.timer > 0
    ensures TickedN(s, TimeoutTicks(s)).saved
      == Some(QuizResult(Trim(s.category), s.score, s.answers + TimeoutLog(s.questions[s.current..])))
    decreases |s.questions| - s.current
  {
    if s.current + 1 == |s.questions| {
      TimeoutLast(s);
    } else {
      var next := TimeoutAdvance(s);
      TimeoutLogStep(s);
      AllTimeouts(next);
    }
  }

  /**
   * A loaded quiz whose countdown has not yet reached 0, never answered, ends with score 0 and
   * a "No answer" record for every question; the first countdown is what the loading left of it.
   */
  lemma NeverAnswering(s: Session)
    requires Invariant(s) && s.questions != [] && NoEmptyAnswer(s.questions)
    requires s.current == 0 && s.selected == "" && s.timer > 0 && s.saved.None?
    ensures var r := TickedN(s, TimeoutTicks(s)).saved;
      && r.Some? && r.value.score == 0 && |r.value.userAnswers| == |s.questions|
      && forall i :: 0 <= i < |s.questions| ==> r.value.userAnswers[i].userAnswer == NoAnswer && !r.value.userAnswers[i].isCorrect
  {
    AllTimeouts(s);
    assert s.questions[0..] == s.questions;
    TimeoutLogNoAnswer(s.questions);
  }

  /** While there are no questions the countdown runs down to 0 and stays there; nothing else changes. */
  lemma {:induction false} TicksWithoutQuestions(s: Session, k: nat)
    requires s.questions == []
    ensures TickedN(s, k) == s.(timer := if k < s.timer then s.timer - k else 0)
    decreases k
  {
    if k > 0 {
      TicksWithoutQuestions(Ticked(s), k - 1);
    }
  }

  /** At timer 0 ticks change nothing: the effect does not run again, so only the button can advance. */
  lemma {:induction false} TicksAtZero(s: Session, k: nat)
    requires InRange(s) && s.timer == 0
    ensures TickedN(s, k) == s
    decreases k
  {
    if k > 0 {
      TicksAtZero(Ticked(s), k - 1);
    }
  }

  /**
   * The first countdown starts on mount, not when the questions arrive: after `t` ticks of
   * loading the first question has 15 - t left. When the loading took 15 ticks or more the
   * timer is stuck at 0 with nothing stored, the first question never times out, and only the
   * (enabled) button moves on.
   */
  lemma LoadingEatsCountdown(param: Option<string>, doc: Option<QuestionDoc>, t: nat)
    ensures var s := Loaded(TickedN(Started(param), t), doc);
      && Invariant(s) && s.current == 0 && s.saved.None?
      && s.timer == (if t < TimerStart then TimerStart - t else 0)
    ensures var s := Loaded(TickedN(Started(param), t), doc);
      t >= TimerStart ==> CanAdvance(s) && forall k: nat :: TickedN(s, k) == s
  {
    var s0 := Started(param);
    TicksWithoutQuestions(s0, t);
    var s := Loaded(TickedN(s0, t), doc);
    LoadedSpec(TickedN(s0, t), doc);
    if t >= TimerStart {
      forall k: nat
        ensures TickedN(s, k) == s
      {
        TicksAtZero(s, k);
      }
    }
  }

  // ---------------------------------------------------------------- the screen

  class QuizScreen {
    var category: string
    var questions: seq<Question>
    var loading: bool
    var error: string
    var current: nat
    var selected: string
    var score: int
    var answers: seq<AnswerRecord>
    var timer: nat
    /** The last value written to the `quizDetails` storage key by this screen. */
    var saved: Option<QuizResult>

    function State(): Session
      reads this
    {
      Session(category, questions, loading, error, current, selected, score, answers, timer, saved)
    }

    predicate Valid()
      reads this
    {
      Invariant(State())
    }

    constructor (param: Option<string>)
      ensures State() == Started(param) && Valid()
    {
      category := CategoryName(param);
      questions := [];
      loading := true;
      error := "";
      current := 0;
      selected := "";
      score := 0;
      answers := [];
      timer := TimerStart;
      saved := None;
    }

    /** The category fetch on mount; it runs once, while the screen is still loading. */
    method Load(doc: Option<QuestionDoc>)
      requires Valid() && loading
      modifies this
      ensures State() == Loaded(old(State()), doc) && Valid()
    {
      LoadedSpec(State(), doc);
      var found := None;
      if doc.Some? {
        var cats := if doc.value.categories.Some? then doc.value.categories else doc.value.firstCategories;
        if cats.Some? && category in cats.value {
          found := Some(cats.value[category]);
        }
      }
      if found.Some? {
        questions := found.value;
      } else {
        error := LoadError;
      }
      loading := false;
    }

    /** Clicking an option. */
    method SelectOption(option: string)
      requires Valid()
      modifies this
      ensures State() == Selected(old(State()), option) && Valid()
    {
      selected := option;
    }

    method HandleNext()
      requires Valid()
      modifies this
      ensures State() == Advanced(old(State())) && Valid()
    {
      if |questions| == 0 {
        return;
      }
      var q := questions[current];
      var isCorrect := selected == q.answer;
      var newAnswer := AnswerRecord(q.question, if selected == "" then NoAnswer else selected, q.answer, isCorrect);
      assert newAnswer == Grade(q, selected);
      var updatedAnswers := answers + [newAnswer];
      var newScore := if isCorrect then score + 1 else score;
      if current + 1 < |questions| {
        MoveOn(updatedAnswers, newScore);
      } else {
        Finish(updatedAnswers, newScore);
      }
    }

    /** The non-final branch of `handleNext`, with the index change's timer reset. */
    method MoveOn(updatedAnswers: seq<AnswerRecord>, newScore: int)
      requires Valid() && current + 1 < |questions|
      requires updatedAnswers == answers + [Grade(questions[current], selected)]
      requires newScore == score + Gain(Grade(questions[current], selected))
      modifies this
      ensures State() == Advanced(old(State())) && Valid()
    {
      ghost var before := State();
      AdvanceStep(before);
      ghost var after := before.(answers := updatedAnswers, score := newScore, selected := "",
        current := before.current + 1, timer := TimerStart);
      assert Advanced(before) == after;
      answers := updatedAnswers;
      score := newScore;
      selected := "";
      current := current + 1;
      timer := TimerStart;
      assert State() == after;
    }

    /** The final branch of `handleNext`: the result is stored under `quizDetails`. */
    method Finish(updatedAnswers: seq<AnswerRecord>, newScore: int)
      requires Valid() && questions != [] && current + 1 == |questions|
      requires updatedAnswers == answers + [Grade(questions[current], selected)]
      requires newScore == score + Gain(Grade(questions[current], selected))
      modifies this
      ensures State() == Advanced(old(State())) && Valid()
    {
      ghost var before := State();
      AdvancePreserves(before);
      AdvanceFinal(before);
      saved := Some(QuizResult(Trim(category), newScore, updatedAnswers));
      assert State() == Advanced(before);
    }

    method Tick()
      requires Valid()
      modifies this
      ensures State() == Ticked(old(State())) && Valid()
    {
      if timer > 0 {
        timer := timer - 1;
        if timer == 0 {
          HandleNext();
        }
      }
    }
  }
}
