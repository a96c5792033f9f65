/** The question table and the filter-and-cap logic behind quiz generation. */
module Questions {
  import opened Wrappers
  import opened Text

  /** The letter of the correct answer. */
  datatype Answer = A | B | C | D

  /** One row of the question table, with the missing optional cells already
      replaced by the empty string. */
  datatype Question = Question(
    question: string,
    subject: string,
    use: string,
    correct: Answer,
    responseA: string,
    responseB: string,
    responseC: string,
    responseD: string,
    remark: string)

  /** The request body of the add-question endpoint; `responseD` and `remark`
      default to "" and may also be sent as null. */
  datatype NewQuestion = NewQuestion(
    question: string,
    subject: string,
    use: string,
    correct: Answer,
    responseA: string,
    responseB: string,
    responseC: string,
    responseD: Option<string>,
    remark: Option<string>)

  /** The row a new question is taken to become once appended to the table
      file and read back, assuming the file round-trips each cell unchanged:
      a null optional cell is written empty and read back as "". */
  function ToRow(q: NewQuestion): (row: Question)
    ensures row.question == q.question && row.subject == q.subject && row.use == q.use
    ensures row.correct == q.correct
    ensures row.responseA == q.responseA && row.responseB == q.responseB && row.responseC == q.responseC
    ensures q.responseD.Some? ==> row.responseD == q.responseD.value
    ensures q.responseD.None? ==> row.responseD == ""
    ensures q.remark.Some? ==> row.remark == q.remark.value
    ensures q.remark.None? ==> row.remark == ""
  {
    Question(q.question, q.subject, q.use, q.correct, q.responseA, q.responseB, q.responseC,
             q.responseD.GetOr(""), q.remark.GetOr(""))
  }

  /** The accepted quiz lengths, 5, 10 or 20 questions. */
  datatype QuizLength = Five | Ten | Twenty {
    function Count(): (n: nat)
      ensures n == 5 || n == 10 || n == 20
    {
      match this
      case Five => 5
      case Ten => 10
      case Twenty => 20
    }
  }

  /** The subject column of the table, in row order. */
  function Subjects(table: seq<Question>): (r: seq<string>)
    ensures |r| == |table|
    ensures forall i :: 0 <= i < |table| ==> r[i] == table[i].subject
  {
    seq(|table|, i requires 0 <= i < |table| => table[i].subject)
  }

  /** No value occurs twice. */
  predicate NoDuplicates<T(==)>(s: seq<T>) {
    forall i, j :: 0 <= i < j < |s| ==> s[i] != s[j]
  }

  /** `Series.unique()`: the distinct values in order of first appearance. */
  function Unique(xs: seq<string>): (r: seq<string>)
    ensures forall x :: x in r <==> x in xs
    ensures NoDuplicates(r)
    decreases |xs|
  {
    if xs == [] then []
    else
      var u := Unique(xs[..|xs| - 1]);
      var last := xs[|xs| - 1];
      assert xs == xs[..|xs| - 1] + [last];
      if last in u then u else u + [last]
  }

  /** The subjects asked for in a request: a comma-separated list with the
      whitespace around each item stripped. */
  function RequestedSubjects(subjects: string): (r: seq<string>)
    ensures |r| == |Split(subjects, ',')| == multiset(subjects)[','] + 1
    ensures forall i :: 0 <= i < |r| ==> r[i] == Strip(Split(subjects, ',')[i])
  {
    SplitCount(subjects, ',');
    var parts := Split(subjects, ',');
    seq(|parts|, i requires 0 <= i < |parts| => Strip(parts[i]))
  }

  /** A request naming one subject, without commas or surrounding
      whitespace, asks for exactly that subject. */
  lemma SingleRequestedSubject(subject: string)
    requires ',' !in subject
    requires subject == [] || (!IsSpace(subject[0]) && !IsSpace(subject[|subject| - 1]))
    ensures RequestedSubjects(subject) == [subject]
  {
    SplitWithoutSeparator(subject, ',');
    assert TrimStart(subject) == subject;
    assert TrimEnd(subject) == subject;
    var list := RequestedSubjects(subject);
    assert |list| == 1 && list[0] == subject;
  }

  /** A subject holding a comma, or starting or ending with whitespace, is
      never among the subjects of a request that names it: the request is cut
      at the comma and each piece is stripped. */
  lemma SubjectNotRequestable(subject: string)
    requires ',' in subject || (subject != [] && (IsSpace(subject[0]) || IsSpace(subject[|subject| - 1])))
    ensures subject !in RequestedSubjects(subject)
  {
  }

  /** The effective subject list: every subject of the table when none is
      requested, otherwise the requested ones. */
  function SubjectList(table: seq<Question>, subjects: Option<string>): (r: seq<string>)
    ensures subjects.None? ==> forall q :: q in table ==> q.subject in r
    ensures subjects.None? ==> forall s :: s in r ==> exists q :: q in table && q.subject == s
  {
    match subjects
    case None => Unique(Subjects(table))
    case Some(s) => RequestedSubjects(s)
  }

  /** The row mask: subject in the list and, when a use is given, the same use. */
  predicate Matches(q: Question, use: Option<string>, subjects: seq<string>) {
    q.subject in subjects && (use.None? || q.use == use.value)
  }

  /** The rows that pass the mask, in table order. */
  function Filtered(table: seq<Question>, use: Option<string>, subjects: seq<string>): (r: seq<Question>)
    ensures |r| <= |table|
    decreases |table|
  {
    if table == [] then []
    else
      var rest := Filtered(table[1..], use, subjects);
      if Matches(table[0], use, subjects) then [table[0]] + rest else rest
  }

  /** A row is in the filtered set exactly when it is in the table and passes the mask. */
  lemma {:induction false} FilteredMembers(table: seq<Question>, use: Option<string>, subjects: seq<string>)
    ensures forall q :: q in Filtered(table, use, subjects) <==> q in table && Matches(q, use, subjects)
    decreases |table|
  {
    if table != [] {
      FilteredMembers(table[1..], use, subjects);
      assert table == [table[0]] + table[1..];
    }
  }

  /** Filtering distributes over concatenation, so the kept rows stay in table order. */
  lemma {:induction false} FilteredAppend(t1: seq<Question>, t2: seq<Question>, use: Option<string>, subjects: seq<string>)
    ensures Filtered(t1 + t2, use, subjects) == Filtered(t1, use, subjects) + Filtered(t2, use, subjects)
    decreases |t1|
  {
    if t1 == [] {
      assert t1 + t2 == t2;
    } else {
      assert (t1 + t2)[1..] == t1[1..] + t2;
      FilteredAppend(t1[1..], t2, use, subjects);
    }
  }

  /** A single row is kept alone or dropped, according to the mask. */
  lemma FilteredSingle(q: Question, use: Option<string>, subjects: seq<string>)
    ensures Filtered([q], use, subjects) == if Matches(q, use, subjects) then [q] else []
  {
  }

  /** When every row passes the mask, the filtered set is the whole table. */
  lemma {:induction false} FilteredAll(table: seq<Question>, use: Option<string>, subjects: seq<string>)
    requires forall q :: q in table ==> Matches(q, use, subjects)
    ensures Filtered(table, use, subjects) == table
    decreases |table|
  {
    if table != [] {
      assert forall q :: q in table[1..] ==> q in table;
      FilteredAll(table[1..], use, subjects);
    }
  }

  /** Filtering a table without duplicate rows gives a set without duplicate rows. */
  lemma {:induction false} FilteredNoDuplicates(table: seq<Question>, use: Option<string>, subjects: seq<string>)
    requires NoDuplicates(table)
    ensures NoDuplicates(Filtered(table, use, subjects))
    decreases |table|
  {
    if table != [] {
      FilteredNoDuplicates(table[1..], use, subjects);
      FilteredMembers(table[1..], use, subjects);
      assert table[0] !in table[1..];
    }
  }

  /** With no subject list and no use, every row is kept. */
  lemma UnfilteredKeepsAll(table: seq<Question>)
    ensures Filtered(table, None, SubjectList(table, None)) == table
  {
    FilteredAll(table, None, SubjectList(table, None));
  }

  /** How many rows a quiz will hold and whether it falls short of the request. */
  datatype Plan = Plan(pool: seq<Question>, size: nat, incomplete: bool)

  /** The one failure of quiz generation beyond authorization: nothing matched (404). */
  datatype SelectionError = NoQuestions {
    function Status(): (code: int)
      ensures code == 404
    {
      404
    }

    function Detail(): (msg: string)
      ensures |msg| > 3 && msg[..3] == "No " && msg[3] == 'q'
    {
      "No questions " + "corresponding to specified use and/or subjects"
    }
  }

  /** The filter-and-cap step of quiz generation: the pool is the filtered
      set; an empty pool fails, otherwise the quiz is capped at the pool size
      and flagged incomplete when the cap applies. */
  function PlanQuiz(table: seq<Question>, n: QuizLength, use: Option<string>, subjects: Option<string>)
    : (r: Result<Plan, SelectionError>)
    ensures r.Failure? <==> Filtered(table, use, SubjectList(table, subjects)) == []
    ensures r.Success? ==> r.value.pool == Filtered(table, use, SubjectList(table, subjects))
    ensures r.Success? ==>
              && 1 <= r.value.size <= n.Count()
              && r.value.size <= |r.value.pool|
              && (r.value.size == n.Count() || r.value.size == |r.value.pool|)
    ensures r.Success? ==> (r.value.incomplete <==> r.value.size < n.Count())
  {
    var pool := Filtered(table, use, SubjectList(table, subjects));
    if |pool| == 0 then Failure(NoQuestions)
    else
      var wanted := n.Count();
      var incomplete := |pool| < wanted;
      var size := if wanted < |pool| then wanted else |pool|;
      Success(Plan(pool, size, incomplete))
  }

  /** The rows were taken from pairwise distinct positions of the pool. */
  ghost predicate DrawnWithoutReplacement(rows: seq<Question>, pool: seq<Question>) {
    exists idx: seq<nat> ::
      && |idx| == |rows|
      && (forall j :: 0 <= j < |idx| ==> idx[j] < |pool| && rows[j] == pool[idx[j]])
      && NoDuplicates(idx)
  }

  /** Removing the element at position `p` of a sequence without duplicates
      drops exactly that element. */
  lemma RemoveAt(s: seq<nat>, p: nat)
    requires p < |s| && NoDuplicates(s)
    ensures var t := s[..p] + s[p + 1..];
            && |t| == |s| - 1 && NoDuplicates(t) && s[p] !in t
            && (forall x :: x in t <==> x in s && x != s[p])
  {
  }

  /** `DataFrame.sample(k)`: `k` rows picked at random, without replacement.
      The random choice is a nondeterministic pick from the positions not yet
      drawn; `idx` records the positions in the order drawn. */
  method Sample(pool: seq<Question>, k: nat) returns (rows: seq<Question>, idx: seq<nat>)
    requires k <= |pool|
    ensures |rows| == |idx| == k
    ensures forall j :: 0 <= j < k ==> idx[j] < |pool| && rows[j] == pool[idx[j]]
    ensures NoDuplicates(idx)
    ensures k == |pool| ==> forall i :: 0 <= i < |pool| ==> i in idx
    ensures k == |pool| ==> forall q :: q in pool ==> q in rows
  {
    var m := |pool|;
    var rest: seq<nat> := seq(m, i requires 0 <= i < m => i);
    rows, idx := [], [];
    forall i | 0 <= i < m ensures i in rest {
      assert rest[i] == i;
    }
    while |idx| < k
      invariant |rows| == |idx| <= k && |idx| + |rest| == m
      invariant forall j :: 0 <= j < |idx| ==> idx[j] < m && rows[j] == pool[idx[j]]
      invariant forall j :: 0 <= j < |rest| ==> rest[j] < m
      invariant NoDuplicates(idx) && NoDuplicates(rest)
      invariant forall a, b :: 0 <= a < |idx| && 0 <= b < |rest| ==> idx[a] != rest[b]
      invariant forall i :: 0 <= i < m ==> i in idx || i in rest
      decreases k - |idx|
    {
      var p :| 0 <= p < |rest|;
      var pick := rest[p];
      RemoveAt(rest, p);
      idx := idx + [pick];
      rows := rows + [pool[pick]];
      rest := rest[..p] + rest[p + 1..];
    }
    if k == m {
      forall q | q in pool ensures q in rows {
        var i :| 0 <= i < m && pool[i] == q;
        assert i in idx;
        var j :| 0 <= j < k && idx[j] == i;
        assert rows[j] == q;
      }
    }
  }

  /** The body of a successful quiz response. */
  datatype Quiz = Quiz(qcm: seq<Question>, incompleteAnswerFlag: bool)

  /** What a quiz drawn from `pool` for a request of `n` questions promises:
      `min(n, |pool|)` rows from distinct positions of the pool, the whole
      pool when it is no larger than `n`, and the incomplete flag set exactly
      when the pool is smaller than `n`. */
  ghost predicate IsQuizFor(quiz: Quiz, pool: seq<Question>, n: QuizLength) {
    && |quiz.qcm| <= n.Count() && |quiz.qcm| <= |pool|
    && (|quiz.qcm| == n.Count() || |quiz.qcm| == |pool|)
    && (quiz.incompleteAnswerFlag <==> |pool| < n.Count())
    && DrawnWithoutReplacement(quiz.qcm, pool)
    && (|pool| <= n.Count() ==> forall q :: q in pool ==> q in quiz.qcm)
  }

  /** When fewer rows match than requested, the quiz is the whole pool, and
      is flagged incomplete. */
  lemma SmallPoolQuiz(quiz: Quiz, pool: seq<Question>, n: QuizLength)
    requires IsQuizFor(quiz, pool, n) && |pool| < n.Count()
    ensures |quiz.qcm| == |pool| && quiz.incompleteAnswerFlag
    ensures forall q :: q in pool ==> q in quiz.qcm
  {
  }

  /** Quiz generation after the credential check: plan, then sample. */
  method GenerateQuiz(table: seq<Question>, n: QuizLength, use: Option<string>, subjects: Option<string>)
    returns (r: Result<Quiz, SelectionError>)
    ensures r.Failure? <==> Filtered(table, use, SubjectList(table, subjects)) == []
    ensures r.Success? ==> IsQuizFor(r.value, Filtered(table, use, SubjectList(table, subjects)), n)
  {
    var plan := PlanQuiz(table, n, use, subjects);
    if plan.Failure? {
      return Failure(plan.error);
    }
    var pool := plan.value.pool;
    var rows, idx := Sample(pool, plan.value.size);
    assert DrawnWithoutReplacement(rows, pool);
    return Success(Quiz(rows, plan.value.incomplete));
  }

  /** Positions drawn without replacement from a pool without duplicate rows
      give a quiz without duplicate rows. */
  lemma DrawnHasNoDuplicates(rows: seq<Question>, pool: seq<Question>)
    requires DrawnWithoutReplacement(rows, pool) && NoDuplicates(pool)
    ensures NoDuplicates(rows)
  {
  }

  /** A row whose subject holds a comma or surrounding whitespace is never
      selected by a request that names that subject. */
  lemma UnrequestableRowNotSelected(table: seq<Question>, q: Question, use: Option<string>)
    requires ',' in q.subject || (q.subject != [] && (IsSpace(q.subject[0]) || IsSpace(q.subject[|q.subject| - 1])))
    ensures q !in Filtered(table, use, SubjectList(table, Some(q.subject)))
  {
    SubjectNotRequestable(q.subject);
    FilteredMembers(table, use, SubjectList(table, Some(q.subject)));
  }

  /** A question appended to the table that matches the request is in the pool,
      so the request cannot fail with 404. */
  lemma AppendedRowIsInPool(table: seq<Question>, q: Question, use: Option<string>, subjects: Option<string>)
    requires use.None? || use.value == q.use
    requires subjects.None? || q.subject in RequestedSubjects(subjects.value)
    ensures q in Filtered(table + [q], use, SubjectList(table + [q], subjects))
  {
    var t := table + [q];
    var list := SubjectList(t, subjects);
    assert q in t;
    FilteredMembers(t, use, list);
  }
}
