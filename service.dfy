/** The three endpoints over the shared question table: the status probe,
    quiz generation and question creation. Each runs the credential check
    first, against the built-in user table. */
module Service {
  import opened Wrappers
  import opened Auth
  import opened Questions

  /** Why a request was refused: the credential check (401 or 403) or an
      empty selection (404). */
  datatype ApiError = AuthFailed(cause: AuthError) | SelectionFailed(reason: SelectionError) {
    function Status(): (code: int)
      ensures code == 401 || code == 403 || code == 404
      ensures code == 404 <==> SelectionFailed?
    {
      match this
      case AuthFailed(e) => e.Status()
      case SelectionFailed(e) => e.Status()
    }

    /** The detail message of the error response. */
    function Detail(): (msg: string)
      ensures |msg| > 0
    {
      match this
      case AuthFailed(e) => e.Detail()
      case SelectionFailed(e) => e.Detail()
    }
  }

  /** Every refusal of an endpoint carries its own detail message. */
  lemma ApiDetailIdentifiesError(e1: ApiError, e2: ApiError)
    requires e1.Detail() == e2.Detail()
    ensures e1 == e2
  {
    if e1.AuthFailed? && e2.AuthFailed? {
      DetailIdentifiesError(e1.cause, e2.cause);
    } else if e1.AuthFailed? || e2.AuthFailed? {
      DetailInitial(if e1.AuthFailed? then e1.cause else e2.cause);
    }
  }

  /** `GET /status`: the constant 1 for any caller holding the "basic" role. */
  function CheckStatus(authHeader: Option<string>): (r: Result<int, AuthError>)
    ensures r.Success? ==> r.value == 1
    ensures r.Failure? ==> VerifyAuthorization(UserList, authHeader, "basic") == Fail(r.error)
  {
    match VerifyAuthorization(UserList, authHeader, "basic")
    case Fail(e) => Failure(e)
    case Pass => Success(1)
  }

  /** Every built-in user, and nobody else, gets the status payload. */
  lemma CheckStatusOpenToEveryUser(authHeader: Option<string>)
    ensures CheckStatus(authHeader).Success? <==>
              exists u :: u in UserList && authHeader == Some(u + ":" + UserList[u].password)
  {
    VerifySucceedsIff(UserList, authHeader, "basic");
    if exists u :: u in UserList && authHeader == Some(u + ":" + UserList[u].password) {
      var u :| u in UserList && authHeader == Some(u + ":" + UserList[u].password);
      BuiltInUsersAreBasic(u);
    }
  }

  /** The in-memory question table that the endpoints share. The add endpoint
      appends to the table file and reloads it, which on the table amounts to
      appending one row. */
  class QuestionStore {
    var table: seq<Question>

    constructor (initial: seq<Question>)
      ensures table == initial
    {
      table := initial;
    }

    /** `GET /QCM`: checks the "basic" role, then filters the table, fails
        with 404 on an empty selection and otherwise returns a quiz drawn from
        the filtered rows. An omitted quiz length means ten questions. */
    method GetQcm(nQuestions: Option<QuizLength>, use: Option<string>, subjects: Option<string>, authHeader: Option<string>)
      returns (r: Result<Quiz, ApiError>)
      ensures VerifyAuthorization(UserList, authHeader, "basic").Fail? ==>
                r == Failure(AuthFailed(VerifyAuthorization(UserList, authHeader, "basic").error))
      ensures VerifyAuthorization(UserList, authHeader, "basic").Pass? ==>
                (r.Failure? <==> Filtered(table, use, SubjectList(table, subjects)) == [])
      ensures r.Failure? ==> (r.error.Status() == 404 <==> VerifyAuthorization(UserList, authHeader, "basic").Pass?)
      ensures r.Success? ==> IsQuizFor(r.value, Filtered(table, use, SubjectList(table, subjects)), nQuestions.GetOr(Ten))
    {
      var auth := VerifyAuthorization(UserList, authHeader, "basic");
      if auth.Fail? {
        return Failure(AuthFailed(auth.error));
      }
      var quiz := GenerateQuiz(table, nQuestions.GetOr(Ten), use, subjects);
      if quiz.Failure? {
        return Failure(SelectionFailed(quiz.error));
      }
      return Success(quiz.value);
    }

    /** `POST /Questions`: checks the "admin" role; on success the table gains
        the new question as its last row and the body is echoed back; on
        failure nothing changes. */
    method AddQuestion(newQuestion: NewQuestion, authHeader: Option<string>)
      returns (r: Result<NewQuestion, AuthError>)
      modifies this
      ensures VerifyAuthorization(UserList, authHeader, "admin").Fail? ==>
                r == Failure(VerifyAuthorization(UserList, authHeader, "admin").error) && table == old(table)
      ensures VerifyAuthorization(UserList, authHeader, "admin").Pass? ==>
                r == Success(newQuestion) && table == old(table) + [ToRow(newQuestion)]
    {
      var auth := VerifyAuthorization(UserList, authHeader, "admin");
      if auth.Fail? {
        return Failure(auth.error);
      }
      table := table + [ToRow(newQuestion)];
      return Success(newQuestion);
    }
  }

  /** A request for "SQL" keeps every row of a table whose rows are all "SQL". */
  lemma AllSqlRowsKept(table: seq<Question>)
    requires forall q :: q in table ==> q.subject == "SQL"
    ensures Filtered(table, None, SubjectList(table, Some("SQL"))) == table
  {
    var sql := "SQL";
    assert !Text.IsSpace(sql[0]) && !Text.IsSpace(sql[2]);
    SingleRequestedSubject(sql);
    FilteredAll(table, None, [sql]);
  }

  /** Three "SQL" rows and a request for five "SQL" questions: all three rows
      are returned and the quiz is flagged incomplete. */
  method ThreeSqlRowsForFive(store: QuestionStore) returns (r: Result<Quiz, ApiError>)
    requires |store.table| == 3 && forall q :: q in store.table ==> q.subject == "SQL"
    ensures r.Success? && |r.value.qcm| == 3 && r.value.incompleteAnswerFlag
    ensures forall q :: q in store.table ==> q in r.value.qcm
  {
    AllSqlRowsKept(store.table);
    AliceLogsIn();
    r := store.GetQcm(Some(Five), None, Some("SQL"), Some("alice:wonderland"));
    SmallPoolQuiz(r.value, store.table, Five);
  }

  /** Adding a question as admin and then asking for a quiz on its subject and
      use returns it, as long as no more matching rows exist than requested. */
  method AddThenGenerate(store: QuestionStore, newQuestion: NewQuestion, n: QuizLength)
    returns (added: Result<NewQuestion, AuthError>, quiz: Result<Quiz, ApiError>)
    requires ',' !in newQuestion.subject
    requires newQuestion.subject == [] ||
             (!Text.IsSpace(newQuestion.subject[0]) && !Text.IsSpace(newQuestion.subject[|newQuestion.subject| - 1]))
    requires |Filtered(store.table, Some(newQuestion.use), [newQuestion.subject])| < n.Count()
    modifies store
    ensures added == Success(newQuestion)
    ensures quiz.Success? && ToRow(newQuestion) in quiz.value.qcm
  {
    var adminHeader := Some("admin:4dm1N");
    assert UserList["admin"].password == "4dm1N";
    assert "admin" + ":" + UserList["admin"].password == "admin:4dm1N";
    OnlyAdminIsAdmin("admin");
    BuiltInUsersAreBasic("admin");
    added := store.AddQuestion(newQuestion, adminHeader);
    var q := ToRow(newQuestion);
    SingleRequestedSubject(q.subject);
    var list := [q.subject];
    FilteredAppend(old(store.table), [q], Some(q.use), list);
    FilteredSingle(q, Some(q.use), list);
    quiz := store.GetQcm(Some(n), Some(q.use), Some(q.subject), adminHeader);
    assert q in Filtered(store.table, Some(q.use), SubjectList(store.table, Some(q.subject)));
  }
}
