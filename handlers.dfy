/** The pure parts of the HTTP handlers around the section parser: the
    validation of a `/api/run` request (app.py:118-122), the flow of that
    handler once the completion text is known (app.py:116-198), and the
    history title (app.py:74). The completion call, the database, the
    session id and the clock are parameters or left out. */
module Handlers {
  import opened Wrappers
  import opened PyStr
  import opened Sections

  /** The labels used when a request names none. */
  const DefaultSections: seq<string> := ["Answer", "Explanation", "Why this"]

  const NoQuestion: string := "No question provided"

  /** Prefix of the reply text used when the completion call fails. */
  const ErrorPrefix: string := "Error contacting OpenRouter: "

  /** A request that passed validation. */
  datatype Request = Request(question: string, sections: seq<string>)

  /** The row the handler saves for one answered question. */
  datatype Session = Session(id: string, ts: string, question: string, sections: seq<string>, answers: map<string, string>)

  /** What the handler sends back: an error with its HTTP status, or the
      answers and the id of the saved session. */
  datatype Reply =
    | BadRequest(status: int, error: string)
    | Answered(sections: map<string, string>, sessionId: string)

  /** A reply together with the session the handler saves, if any. */
  datatype Outcome = Outcome(reply: Reply, saved: Option<Session>)

  /** `data.get("question", "").strip()` and `data.get("sections", [...])`
      followed by the emptiness check (app.py:118-122). `None` stands for
      a key absent from the request body. */
  function ValidateRequest(question: Option<string>, sections: Option<seq<string>>): (r: Result<Request, string>)
    ensures var q := if question.Some? then question.value else "";
      (r.Err? <==> AllSpace(q)) &&
      (r.Err? ==> r.error == NoQuestion) &&
      (r.Ok? ==> r.value.question == Strip(q) &&
                 r.value.sections == (if sections.Some? then sections.value else DefaultSections))
  {
    var q := Strip(if question.Some? then question.value else "");
    StripBlank(if question.Some? then question.value else "");
    if q == [] then Err(NoQuestion)
    else Ok(Request(q, if sections.Some? then sections.value else DefaultSections))
  }

  /** An accepted question is the submitted one with its surrounding
      whitespace removed: a non-empty piece of it that neither starts nor
      ends with whitespace. */
  lemma AcceptedQuestionIsTrimmed(question: string, sections: Option<seq<string>>)
    requires ValidateRequest(Some(question), sections).Ok?
    ensures var q := ValidateRequest(Some(question), sections).value.question;
      q != [] && Contains(question, q) && !IsSpace(q[0]) && !IsSpace(q[|q| - 1])
  {
    StripMeaning(question);
    StripBlank(question);
  }

  /** The `/api/run` handler once the completion text `aiText` is known:
      `id` and `ts` stand for `uuid.uuid4()` and the clock. A blank
      question is answered with 400 before anything is parsed or saved;
      otherwise the answers are parsed from `aiText` and saved with the
      stripped question. */
  function RunQuery(question: Option<string>, sections: Option<seq<string>>, aiText: string, id: string, ts: string): (o: Outcome)
    ensures o.reply.BadRequest? <==> o.saved.None?
    ensures o.reply.BadRequest? <==> ValidateRequest(question, sections).Err?
    ensures o.reply.BadRequest? ==> o.reply == BadRequest(400, NoQuestion)
    ensures o.reply.Answered? ==>
      var req := ValidateRequest(question, sections).value;
      o.saved == Some(Session(id, ts, req.question, req.sections, o.reply.sections)) &&
      o.reply.sessionId == id &&
      o.reply.sections == Answers(aiText, req.sections)
  {
    match ValidateRequest(question, sections)
    case Err(e) => Outcome(BadRequest(400, e), None)
    case Ok(req) =>
      var answers := Answers(aiText, req.sections);
      Outcome(Answered(answers, id), Some(Session(id, ts, req.question, req.sections, answers)))
  }

  /** The text the handler parses when the completion call fails with the
      message `e` (app.py:161). */
  function ErrorText(e: string): (t: string)
    ensures |t| == |ErrorPrefix| + |e|
    ensures t[..|ErrorPrefix|] == ErrorPrefix && t[|ErrorPrefix|..] == e
  {
    ErrorPrefix + e
  }

  /** When the failure message holds no `**`, every label of the saved
      session is "(no response)". */
  lemma ErrorReplyHasNoSections(e: string, sections: seq<string>)
    requires !Contains(e, "**")
    ensures forall s :: s in sections ==> Answers(ErrorText(e), sections)[s] == NoResponse
  {
    forall i ensures !OccursAt(ErrorText(e), "**", i) {
      var t := ErrorText(e);
      if 0 <= i && i + 2 <= |t| {
        if i + 1 < |ErrorPrefix| {
          assert t[i] == ErrorPrefix[i];
          assert ErrorPrefix[i] != '*';
        } else if i + 1 == |ErrorPrefix| {
          assert t[i + 1] == e[0];
          assert t[i] == ' ';
        } else {
          assert t[i..i + 2] == e[i - |ErrorPrefix|..i - |ErrorPrefix| + 2];
          assert !OccursAt(e, "**", i - |ErrorPrefix|);
        }
      }
    }
    NoBoldAllNoResponse(ErrorText(e), sections);
  }

  /** The history title of a question (app.py:74): the first 60 characters,
      followed by "..." only when something was cut off. */
  function Title(question: string): (t: string)
    ensures |t| <= 63
    ensures |question| <= 60 ==> t == question
    ensures |question| > 60 ==> |t| == 63 && t[..60] == question[..60] && t[60..] == "..."
  {
    question[..if |question| <= 60 then |question| else 60] + (if |question| > 60 then "..." else "")
  }

  /** Two questions share a title exactly when they are equal or both are
      longer than 60 characters and agree on the first 60. */
  lemma TitleCollision(q1: string, q2: string)
    ensures Title(q1) == Title(q2) <==>
      q1 == q2 || (|q1| > 60 && |q2| > 60 && q1[..60] == q2[..60])
  {
    if |q1| > 60 && |q2| > 60 && q1[..60] == q2[..60] {
      assert Title(q1) == q1[..60] + "..." == Title(q2);
    }
    if Title(q1) == Title(q2) && |q1| > 60 && |q2| > 60 {
      assert q1[..60] == Title(q1)[..60];
    }
  }
}
