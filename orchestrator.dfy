/** `answer_question`: look the employee up in the graph, retrieve policy
    chunks for the question, build the grounding prompt and ask the model.
    The graph lookup, the vector search and the model are the three
    collaborators, passed in as functions; the reply records the calls made
    to them, in order. */
module Orchestrator {
  import opened PyStr
  import opened VectorStore
  import opened Graph

  /** One call to a collaborator, with its argument. */
  datatype Call = LookupUser(userId: string) | Search(query: string) | AskLlm(prompt: string)

  /** The collaborators: `graph.get_user_context`, `search` and `ask_llm`. */
  datatype Services = Services(
    lookupUser: string -> Option<Dict>,
    search: string -> seq<Match>,
    askLlm: string -> string)

  /** The pair `(answer, context)` that `answer_question` returns, and the
      collaborator calls it made to get there. */
  datatype Reply = Reply(answer: string, context: Option<seq<string>>, calls: seq<Call>)

  const UserNotFound: string := "User not found."

  /** The dashed delimiter around the policy text. */
  const Rule: string := "----------------"

  /** Python's `not user`: no record, or an empty one. */
  predicate IsFalsy(u: Option<Dict>) {
    u.None? || u.value == map[]
  }

  /** The keys the prompt reads by subscript; any other key is read with
      `.get`. A record without them makes `answer_question` raise. */
  predicate HasRequiredKeys(user: Dict) {
    "employment_type" in user && "name" in user
  }

  /** What the lookup must give for `answer_question` to return at all. */
  predicate Usable(u: Option<Dict>) {
    IsFalsy(u) || HasRequiredKeys(u.value)
  }

  /** `user.get(key)`. */
  function Field(user: Dict, key: string): Option<Value> {
    if key in user then Some(user[key]) else None
  }

  /** How an f-string renders a value: Python's `None`, from a missing key
      or a null property, prints as `None`. */
  function Render(v: Option<Value>): string {
    match v
    case Some(Str(s)) => s
    case _ => "None"
  }

  /** `[m["metadata"]["text"] for m in results]`. */
  function ChunkTexts(results: seq<Match>): seq<string> {
    seq(|results|, i requires 0 <= i < |results| => results[i].metadata.text)
  }

  /** `docs`: the chunk texts separated by blank lines. */
  function PolicyBlock(texts: seq<string>): string {
    Join(texts, "\n\n")
  }

  /** The lines of the prompt template, in order: the f-string's text
      between its newlines, with the placeholders filled in. */
  function PromptLines(user: Dict, docs: string, question: string): (ls: seq<string>)
    requires HasRequiredKeys(user)
    ensures |ls| == 18
  {
    [ "",
      "You are GlideCloud's HR assistant.",
      "",
      "User role: " + Render(Some(user["employment_type"])),
      "User name: " + Render(Some(user["name"])),
      "Manager: " + Render(Field(user, "manager")),
      "Mentor: " + Render(Field(user, "mentor")),
      "Department: " + Render(Field(user, "department")),
      "College: " + Render(Field(user, "college")),
      "",
      "Answer ONLY from the policy text below:",
      "",
      Rule,
      docs,
      Rule,
      "",
      "Question: " + question,
      "" ]
  }

  /** The grounding prompt: the template's lines joined with newlines, so it
      opens and closes with a newline. */
  function Prompt(user: Dict, docs: string, question: string): string
    requires HasRequiredKeys(user)
  {
    Join(PromptLines(user, docs, question), "\n")
  }

  /** `answer_question(user_id, question, debug)`. */
  function AnswerQuestion(svc: Services, userId: string, question: string, debug: bool := false)
    : (r: Reply)
    requires Usable(svc.lookupUser(userId))
    ensures IsFalsy(svc.lookupUser(userId)) ==> r == Reply(UserNotFound, None, [LookupUser(userId)])
    ensures !IsFalsy(svc.lookupUser(userId)) ==>
      |r.calls| == 3 && r.calls[0] == LookupUser(userId) && r.calls[1] == Search(question)
      && r.calls[2].AskLlm? && r.answer == svc.askLlm(r.calls[2].prompt)
    ensures r.context.Some? <==> debug && !IsFalsy(svc.lookupUser(userId))
    ensures r.context.Some? ==>
      |r.context.value| == |svc.search(question)|
      && forall i :: 0 <= i < |r.context.value| ==>
           r.context.value[i] == svc.search(question)[i].metadata.text
  {
    var user := svc.lookupUser(userId);
    if IsFalsy(user) then Reply(UserNotFound, None, [LookupUser(userId)])
    else
      var results := svc.search(question);
      var texts := ChunkTexts(results);
      var prompt := Prompt(user.value, PolicyBlock(texts), question);
      var answer := svc.askLlm(prompt);
      Reply(answer, if debug then Some(texts) else None,
            [LookupUser(userId), Search(question), AskLlm(prompt)])
  }

  // ---------------------------------------------------------------------
  // The prompt

  /** Every line but the last sits at its offset, followed by a newline,
      and the next line starts right after that newline; the last line, which
      is empty, ends the prompt. */
  lemma PromptLineAt(user: Dict, docs: string, question: string, k: nat)
    requires HasRequiredKeys(user) && k < 17
    ensures var ls := PromptLines(user, docs, question);
      At(Prompt(user, docs, question), ls[k] + "\n", Offset(ls, "\n", k))
      && Offset(ls, "\n", k + 1) == Offset(ls, "\n", k) + |ls[k]| + 1
      && Offset(ls, "\n", 17) == |Prompt(user, docs, question)|
  {
    var ls := PromptLines(user, docs, question);
    PartSepAt(ls, "\n", k);
    JoinEnd(ls, "\n");
  }

  /** The prompt lines that render an optional field read with `.get`:
      the line's label and the record key, for lines 5 to 8. */
  const OptionalFields: seq<(string, string)> :=
    [("Manager: ", "manager"), ("Mentor: ", "mentor"),
     ("Department: ", "department"), ("College: ", "college")]

  /** The employee record has no usable value for `key`. */
  predicate Absent(user: Dict, key: string) {
    key !in user || user[key] == Null
  }

  /** An optional field that is missing or null shows in the prompt as the
      literal text `None` on its line. */
  lemma AbsentFieldRendersNone(user: Dict, docs: string, question: string, f: nat)
    requires HasRequiredKeys(user) && f < 4
    requires Absent(user, OptionalFields[f].1)
    ensures At(Prompt(user, docs, question), OptionalFields[f].0 + "None\n",
               Offset(PromptLines(user, docs, question), "\n", 5 + f))
  {
    var ls := PromptLines(user, docs, question);
    PromptLineAt(user, docs, question, 5 + f);
    var caption, key := OptionalFields[f].0, OptionalFields[f].1;
    assert Render(Field(user, key)) == "None";
    assert ls[5 + f] == caption + "None" by {
      if f == 0 {
      } else if f == 1 {
      } else if f == 2 {
      } else {
      }
    }
    assert ls[5 + f] + "\n" == caption + "None\n";
  }

  /** The policy text sits between the two rules. */
  lemma PromptFramesDocs(user: Dict, docs: string, question: string)
    requires HasRequiredKeys(user)
    ensures At(Prompt(user, docs, question), Rule + "\n" + docs + "\n" + Rule + "\n",
               Offset(PromptLines(user, docs, question), "\n", 12))
  {
    ThreePartsAt(PromptLines(user, docs, question), "\n", 12);
  }

  /** The prompt ends with the question line. */
  lemma PromptEndsWithQuestion(user: Dict, docs: string, question: string)
    requires HasRequiredKeys(user)
    ensures EndsWith(Prompt(user, docs, question), "Question: " + question + "\n")
  {
    var p, ls := Prompt(user, docs, question), PromptLines(user, docs, question);
    PromptLineAt(user, docs, question, 16);
    var line := ls[16] + "\n";
    assert line == "Question: " + question + "\n";
    var o := Offset(ls, "\n", 16);
    assert o + |line| == |p|;
    assert p[o..o + |line|] == line;
  }

  /** Where the policy text starts depends on the employee only, and the
      question line follows the text at a fixed distance. */
  lemma PromptPlaces(user: Dict, docs: string, question: string)
    requires HasRequiredKeys(user)
    ensures var ls := PromptLines(user, docs, question);
      Offset(ls, "\n", 13) == Offset(PromptLines(user, "", ""), "\n", 13)
      && Offset(ls, "\n", 16) == Offset(ls, "\n", 13) + |docs| + |Rule| + 3
      && |Prompt(user, docs, question)| == Offset(ls, "\n", 16) + |question| + 11
  {
    var ls := PromptLines(user, docs, question);
    var base := PromptLines(user, "", "");
    assert ls[..13] == base[..13];
    OffsetPrefix(ls, base, "\n", 13);
    PromptLineAt(user, docs, question, 13);
    PromptLineAt(user, docs, question, 14);
    PromptLineAt(user, docs, question, 15);
    PromptLineAt(user, docs, question, 16);
  }

  /** Two prompts for the same employee and question are equal only if
      their policy texts are: the prompt carries the retrieved text intact. */
  lemma PromptDeterminesDocs(user: Dict, d1: string, d2: string, question: string)
    requires HasRequiredKeys(user)
    requires Prompt(user, d1, question) == Prompt(user, d2, question)
    ensures d1 == d2
  {
    PromptPlaces(user, d1, question);
    PromptPlaces(user, d2, question);
    PromptLineAt(user, d1, question, 13);
    PromptLineAt(user, d2, question, 13);
    var p := Prompt(user, d1, question);
    var o := Offset(PromptLines(user, "", ""), "\n", 13);
    assert |d1| == |d2|;
    assert d1 == p[o..o + |d1| + 1][..|d1|];
    assert d2 == p[o..o + |d2| + 1][..|d2|];
  }

  /** Two prompts for the same employee and policy text are equal only if
      their questions are. */
  lemma PromptDeterminesQuestion(user: Dict, docs: string, q1: string, q2: string)
    requires HasRequiredKeys(user)
    requires Prompt(user, docs, q1) == Prompt(user, docs, q2)
    ensures q1 == q2
  {
    PromptPlaces(user, docs, q1);
    PromptPlaces(user, docs, q2);
    PromptLineAt(user, docs, q1, 16);
    PromptLineAt(user, docs, q2, 16);
    var p := Prompt(user, docs, q1);
    var ls1, ls2 := PromptLines(user, docs, q1), PromptLines(user, docs, q2);
    assert ls1[..16] == ls2[..16];
    OffsetPrefix(ls1, ls2, "\n", 16);
    var o := Offset(ls1, "\n", 16);
    assert |q1| == |q2|;
    assert q1 == p[o..o + |q1| + 11][10..10 + |q1|];
    assert q2 == p[o..o + |q2| + 11][10..10 + |q2|];
  }

  // ---------------------------------------------------------------------
  // The pipeline

  /** The policy text lists the chunk texts in search order, each followed
      by a blank line except the last. */
  lemma PolicyBlockInSearchOrder(results: seq<Match>, i: nat)
    requires i < |results|
    ensures var texts := ChunkTexts(results);
      At(PolicyBlock(texts), results[i].metadata.text, Offset(texts, "\n\n", i))
      && (i + 1 < |results| ==>
            At(PolicyBlock(texts), "\n\n", Offset(texts, "\n\n", i) + |results[i].metadata.text|))
  {
    JoinPartAt(ChunkTexts(results), "\n\n", i);
    if i + 1 < |results| {
      JoinSepAt(ChunkTexts(results), "\n\n", i);
    }
  }

  /** For a known employee the model is asked exactly the grounding prompt
      built from the employee record, the search results and the question. */
  lemma ModelSeesGroundingPrompt(svc: Services, userId: string, question: string, debug: bool)
    requires Usable(svc.lookupUser(userId)) && !IsFalsy(svc.lookupUser(userId))
    ensures var r := AnswerQuestion(svc, userId, question, debug);
      var prompt := Prompt(svc.lookupUser(userId).value,
                           PolicyBlock(ChunkTexts(svc.search(question))), question);
      r.calls == [LookupUser(userId), Search(question), AskLlm(prompt)]
      && r.answer == svc.askLlm(prompt)
  {
  }

  /** With no search results the policy text is empty, so the two rules are
      adjacent in the prompt, and the model is still asked. */
  lemma EmptyRetrievalStillAsks(svc: Services, userId: string, question: string, debug: bool)
    requires Usable(svc.lookupUser(userId)) && !IsFalsy(svc.lookupUser(userId))
    requires svc.search(question) == []
    ensures var r := AnswerQuestion(svc, userId, question, debug);
      var user := svc.lookupUser(userId).value;
      var prompt := Prompt(user, "", question);
      r.calls[2] == AskLlm(prompt) && r.answer == svc.askLlm(prompt)
      && At(prompt, Rule + "\n" + "\n" + Rule + "\n", Offset(PromptLines(user, "", question), "\n", 12))
      && (debug ==> r.context == Some([]))
  {
    var user := svc.lookupUser(userId).value;
    assert ChunkTexts([]) == [];
    PromptFramesDocs(user, "", question);
    assert Rule + "\n" + "" == Rule + "\n";
  }

  /** An unknown employee short-circuits: neither the search nor the model
      is consulted, so the reply is the same whatever they would answer. */
  lemma UnknownUserConsultsNothing(s1: Services, s2: Services, userId: string, question: string,
                                   debug: bool)
    requires s1.lookupUser(userId) == s2.lookupUser(userId)
    requires IsFalsy(s1.lookupUser(userId))
    ensures AnswerQuestion(s1, userId, question, debug) == AnswerQuestion(s2, userId, question, debug)
    ensures forall c :: c in AnswerQuestion(s1, userId, question, debug).calls ==> c.LookupUser?
  {
  }

  /** The graph client's lookup on a database that conforms to its query
      never makes `answer_question` raise. */
  lemma GraphLookupIsUsable(session: Session, userId: string)
    requires Conforms(session)
    ensures Usable(GetUserContext(session, userId))
  {
    UserContextShape(session, userId);
  }

  // ---------------------------------------------------------------------
  // The backend's own scenarios

  /** A record with all six context fields set. */
  function Employee(name: string, kind: string, department: string, manager: string,
                    mentor: string, college: string): (user: Dict)
    ensures HasRequiredKeys(user)
  {
    map["name" := Str(name), "employment_type" := Str(kind), "department" := Str(department),
        "manager" := Str(manager), "mentor" := Str(mentor), "college" := Str(college)]
  }

  function PolicyMatch(text: string): Match {
    Match("", ChunkMetadata("", "", text))
  }

  /** One full-time employee, one leave-policy chunk and a fixed model reply. */
  function LeaveServices(): Services {
    Services(
      id => if id == "EMP001" then Some(Employee("John Doe", "full_time", "Engineering", "Alice", "Bob", "MIT"))
            else None,
      q => [PolicyMatch("Full-time employees get 20 days of leave per year.")],
      p => "You get 20 days of leave as a full-time employee.")
  }

  /** One intern and two policy chunks. */
  function InternServices(): Services {
    Services(
      id => if id == "EMP002" then Some(Employee("Jane Smith", "intern", "HR", "Charlie", "Diana", "Stanford"))
            else None,
      q => [PolicyMatch("Intern policy chunk 1"), PolicyMatch("Intern policy chunk 2")],
      p => "Interns get 10 days of leave.")
  }

  /** The known employee gets the model's reply and, without debug, no
      context; an unknown id gets the fixed refusal. */
  lemma LeaveScenario()
    ensures var r := AnswerQuestion(LeaveServices(), "EMP001", "How many leave days?");
      r.answer == "You get 20 days of leave as a full-time employee." && r.context == None
    ensures AnswerQuestion(LeaveServices(), "INVALID_ID", "How many leave days?")
         == Reply(UserNotFound, None, [LookupUser("INVALID_ID")])
  {
  }

  /** With debug the context lists both chunks in search order. */
  lemma InternDebugScenario()
    ensures AnswerQuestion(InternServices(), "EMP002", "How many leave days as intern?", true).context
         == Some(["Intern policy chunk 1", "Intern policy chunk 2"])
  {
    var svc := InternServices();
    var results := svc.search("How many leave days as intern?");
    assert results == [PolicyMatch("Intern policy chunk 1"), PolicyMatch("Intern policy chunk 2")];
    assert ChunkTexts(results) == ["Intern policy chunk 1", "Intern policy chunk 2"];
  }
}
