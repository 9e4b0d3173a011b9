/**
 * The two submission actions with logic of their own: `perform_create`,
 * which evaluates a new submission (reference text, score, plagiarism check
 * against the other submissions of the assignment) and stores the result,
 * and `grade_submission`, the teacher's manual override.
 */
module SubmissionViewSet {
  import opened Wrappers
  import opened Text
  import opened Rounding
  import opened Extraction
  import opened Scoring
  import opened Plagiarism
  import opened Models

  /** The keywords used when an assignment lists none. */
  const DefaultKeywords: seq<string> := ["AI", "making decisions", "recognizing patterns"]

  const PlagiarismSeparator: string := " | Plagiarism: "

  /**
   * The media storage: its root directory and, for every path that exists,
   * what the reader chosen for that path yields.
   */
  datatype Storage = Storage(root: string, files: map<string, Reading>)

  /** `os.path.join(MEDIA_ROOT, name)` for a relative name. */
  function JoinPath(root: string, name: string): string
  {
    root + "/" + name
  }

  /** The extracted text of a stored file, or `None` when its path does not exist. */
  function ReadStored(storage: Storage, name: string): (text: Option<string>)
    ensures text.None? <==> JoinPath(storage.root, name) !in storage.files
  {
    var path := JoinPath(storage.root, name);
    if path in storage.files then Some(ExtractText(path, storage.files[path])) else None
  }

  /** `assignment.required_keywords or DEFAULT`: never empty. */
  function Keywords(assignment: Assignment): (keywords: seq<string>)
    ensures keywords != []
    ensures assignment.requiredKeywords != [] ==> keywords == assignment.requiredKeywords
    ensures assignment.requiredKeywords == [] ==> keywords == DefaultKeywords
  {
    if assignment.requiredKeywords != [] then assignment.requiredKeywords else DefaultKeywords
  }

  // ---------------------------------------------------------------------
  // The embeddings dictionary
  // ---------------------------------------------------------------------

  predicate HasId(entries: seq<Entry>, id: nat)
  {
    exists k :: 0 <= k < |entries| && entries[k].id == id
  }

  /** The position of the key `id`, if present. */
  function PositionOf(entries: seq<Entry>, id: nat): (k: Option<nat>)
    ensures k.Some? ==> k.value < |entries| && entries[k.value].id == id
    ensures k.None? ==> !HasId(entries, id)
  {
    if entries == [] then None
    else if entries[0].id == id then Some(0)
    else match PositionOf(entries[1..], id)
      case None => None
      case Some(k) => Some(k + 1)
  }

  /** Dictionary assignment `d[id] = v`: a present key keeps its place, a new key goes last. */
  function Put(entries: seq<Entry>, e: Entry): (r: seq<Entry>)
    ensures !HasId(entries, e.id) ==> r == entries + [e]
    ensures HasId(entries, e.id) ==> |r| == |entries|
    ensures HasId(entries, e.id) ==> exists k :: 0 <= k < |entries| && entries[k].id == e.id && r == entries[k := e]
    ensures e in r
    ensures forall k :: 0 <= k < |r| ==> r[k] == e || r[k] in entries
    ensures DistinctIds(entries) ==> DistinctIds(r)
  {
    match PositionOf(entries, e.id)
    case Some(k) =>
      assert entries[k].id == e.id && entries[k := e][k] == e;
      entries[k := e]
    case None => entries + [e]
  }

  /** The dictionaries `student_embeddings` and `submission_id_to_student`. */
  datatype Gathered = Gathered(entries: seq<Entry>, names: map<nat, string>)

  /**
   * What one other submission contributes: nothing (`Ok(None)`) when it is
   * the submission being evaluated, has no file, its file is missing or
   * yields no text; its embedding otherwise; `Err` when encoding raised.
   */
  function SiblingEmbedding(submission: Submission, other: Submission, storage: Storage, model: Embedder)
    : Result<Option<Vector>, string>
  {
    if other.id == submission.id || other.submittedFile == "" then Ok(None)
    else match ReadStored(storage, other.submittedFile)
      case None => Ok(None)
      case Some(text) =>
        if text == "" then Ok(None)
        else match model.encode(text)
          case Err(message) => Err(message)
          case Ok(embedding) => Ok(Some(embedding))
  }

  /** The dictionaries after the loop has visited `others`. */
  function Gather(submission: Submission, own: Vector, others: seq<Submission>, storage: Storage, model: Embedder)
    : (g: Result<Gathered, string>)
    ensures g.Ok? ==> DistinctIds(g.value.entries) && |g.value.entries| >= 1
    ensures g.Ok? ==> g.value.entries[0] == Entry(submission.id, own)
    ensures g.Ok? ==> forall k :: 0 <= k < |g.value.entries| ==> g.value.entries[k].id in g.value.names
    decreases |others|
  {
    if others == [] then Ok(Gathered([Entry(submission.id, own)], map[submission.id := submission.student]))
    else match Gather(submission, own, others[..|others| - 1], storage, model)
      case Err(message) => Err(message)
      case Ok(g) =>
        var other := others[|others| - 1];
        match SiblingEmbedding(submission, other, storage, model)
        case Err(message) => Err(message)
        case Ok(None) => Ok(g)
        case Ok(Some(embedding)) =>
          assert g.entries[0].id != other.id;
          Ok(Gathered(Put(g.entries, Entry(other.id, embedding)), g.names[other.id := other.student]))
  }

  /** Once encoding a sibling raised, the rest of the loop is never reached. */
  lemma {:induction false} GatherErrPersists(submission: Submission, own: Vector, others: seq<Submission>,
                                             k: nat, storage: Storage, model: Embedder)
    requires k <= |others|
    requires Gather(submission, own, others[..k], storage, model).Err?
    ensures Gather(submission, own, others, storage, model) == Gather(submission, own, others[..k], storage, model)
    decreases |others| - k
  {
    if k < |others| {
      assert others[..k + 1][..k] == others[..k];
      GatherErrPersists(submission, own, others, k + 1, storage, model);
    } else {
      assert others[..k] == others;
    }
  }

  /** Dictionary assignment adds its key and keeps every other key. */
  lemma PutKeeps(entries: seq<Entry>, e: Entry, id: nat)
    ensures HasId(Put(entries, e), id) <==> HasId(entries, id) || id == e.id
  {
    var r := Put(entries, e);
    match PositionOf(entries, e.id)
    case Some(k) =>
      assert r == entries[k := e];
      if HasId(entries, id) {
        var j :| 0 <= j < |entries| && entries[j].id == id;
        assert r[j].id == id;
      }
      if HasId(r, id) {
        var j :| 0 <= j < |r| && r[j].id == id;
        assert entries[j].id == id;
      }
    case None =>
      assert r == entries + [e];
      if HasId(entries, id) {
        var j :| 0 <= j < |entries| && entries[j].id == id;
        assert r[j] == entries[j];
      }
      assert r[|entries|] == e;
      if HasId(r, id) {
        var j :| 0 <= j < |r| && r[j].id == id;
        if j < |entries| {
          assert entries[j] == r[j];
        }
      }
  }

  /** Does the other submission `s` put an embedding into the dictionary? */
  predicate Contributes(submission: Submission, s: Submission, storage: Storage, model: Embedder)
  {
    var c := SiblingEmbedding(submission, s, storage, model);
    c.Ok? && c.value.Some?
  }

  /**
   * The dictionary holds the student's own key and exactly the keys of the
   * other submissions that have a file which exists and yields text.
   */
  lemma {:induction false} GatherMembers(submission: Submission, own: Vector, others: seq<Submission>,
                                         storage: Storage, model: Embedder, id: nat)
    requires Gather(submission, own, others, storage, model).Ok?
    ensures HasId(Gather(submission, own, others, storage, model).value.entries, id)
      <==> id == submission.id || exists s :: s in others && s.id == id && Contributes(submission, s, storage, model)
    decreases |others|
  {
    var entries := Gather(submission, own, others, storage, model).value.entries;
    if others == [] {
      assert entries == [Entry(submission.id, own)];
      if HasId(entries, id) {
        var j :| 0 <= j < |entries| && entries[j].id == id;
      }
      if id == submission.id {
        assert entries[0].id == id;
      }
    } else {
      var init := others[..|others| - 1];
      var other := others[|others| - 1];
      assert others == init + [other];
      GatherMembers(submission, own, init, storage, model, id);
      var g := Gather(submission, own, init, storage, model).value;
      if Contributes(submission, other, storage, model) {
        PutKeeps(g.entries, Entry(other.id, SiblingEmbedding(submission, other, storage, model).value.value), id);
      } else {
        assert entries == g.entries;
      }
      if exists s :: s in others && s.id == id && Contributes(submission, s, storage, model) {
        var s :| s in others && s.id == id && Contributes(submission, s, storage, model);
        if s != other {
          assert s in init;
        }
      }
    }
  }

  /**
   * The names dictionary maps the student's own key to the student, and every
   * other key to the student of a contributing submission with that key.
   */
  lemma {:induction false} GatherNames(submission: Submission, own: Vector, others: seq<Submission>,
                                       storage: Storage, model: Embedder)
    requires Gather(submission, own, others, storage, model).Ok?
    ensures var names := Gather(submission, own, others, storage, model).value.names;
      submission.id in names && names[submission.id] == submission.student
    ensures var names := Gather(submission, own, others, storage, model).value.names;
      forall id :: id in names && id != submission.id ==>
        exists s :: s in others && s.id == id && Contributes(submission, s, storage, model) && names[id] == s.student
    decreases |others|
  {
    if others != [] {
      var init := others[..|others| - 1];
      var other := others[|others| - 1];
      assert others == init + [other];
      GatherNames(submission, own, init, storage, model);
      var g := Gather(submission, own, init, storage, model).value;
      var names := Gather(submission, own, others, storage, model).value.names;
      if Contributes(submission, other, storage, model) {
        assert other.id != submission.id;
        assert names == g.names[other.id := other.student];
        forall id | id in names && id != submission.id
          ensures exists s :: s in others && s.id == id && Contributes(submission, s, storage, model) && names[id] == s.student
        {
          if id == other.id {
            assert other in others;
          } else {
            var s :| s in init && s.id == id && Contributes(submission, s, storage, model) && g.names[id] == s.student;
            assert s in others;
          }
        }
      } else {
        assert names == g.names;
        forall id | id in names && id != submission.id
          ensures exists s :: s in others && s.id == id && Contributes(submission, s, storage, model) && names[id] == s.student
        {
          var s :| s in init && s.id == id && Contributes(submission, s, storage, model) && g.names[id] == s.student;
          assert s in others;
        }
      }
    }
  }

  /** `e` holds, under its id, the embedding of the text of one of `others`. */
  predicate EncodesSibling(submission: Submission, others: seq<Submission>, storage: Storage, model: Embedder, e: Entry)
  {
    exists s :: s in others && s.id == e.id && SiblingEmbedding(submission, s, storage, model) == Ok(Some(e.embedding))
  }

  /** Every entry after the student's own holds the embedding of a sibling's text, under that sibling's id. */
  lemma {:induction false} GatherEmbeddings(submission: Submission, own: Vector, others: seq<Submission>,
                                            storage: Storage, model: Embedder)
    requires Gather(submission, own, others, storage, model).Ok?
    ensures var es := Gather(submission, own, others, storage, model).value.entries;
      forall k :: 1 <= k < |es| ==> EncodesSibling(submission, others, storage, model, es[k])
    decreases |others|
  {
    if others != [] {
      var init := others[..|others| - 1];
      var other := others[|others| - 1];
      assert others == init + [other];
      GatherEmbeddings(submission, own, init, storage, model);
      var g := Gather(submission, own, init, storage, model).value;
      var es := Gather(submission, own, others, storage, model).value.entries;
      if Contributes(submission, other, storage, model) {
        PutEncodesSibling(submission, own, init, other, storage, model);
      } else {
        assert es == g.entries;
        forall k | 1 <= k < |es| ensures EncodesSibling(submission, others, storage, model, es[k]) {
          var s :| s in init && s.id == es[k].id && SiblingEmbedding(submission, s, storage, model) == Ok(Some(es[k].embedding));
          assert s in others;
        }
      }
    }
  }

  /** The step of `GatherEmbeddings` for a contributing sibling. */
  lemma PutEncodesSibling(submission: Submission, own: Vector, init: seq<Submission>, other: Submission,
                          storage: Storage, model: Embedder)
    requires Gather(submission, own, init, storage, model).Ok?
    requires Contributes(submission, other, storage, model)
    requires var es := Gather(submission, own, init, storage, model).value.entries;
      forall k :: 1 <= k < |es| ==> EncodesSibling(submission, init, storage, model, es[k])
    ensures var es := Gather(submission, own, init + [other], storage, model).value.entries;
      forall k :: 1 <= k < |es| ==> EncodesSibling(submission, init + [other], storage, model, es[k])
  {
    var others := init + [other];
    assert others[..|others| - 1] == init;
    var g := Gather(submission, own, init, storage, model).value;
    var e := Entry(other.id, SiblingEmbedding(submission, other, storage, model).value.value);
    var es := Put(g.entries, e);
    assert Gather(submission, own, others, storage, model).value.entries == es;
    forall k | 1 <= k < |es| ensures EncodesSibling(submission, others, storage, model, es[k]) {
      if es[k] == e {
        assert other in others;
      } else {
        var j :| 0 <= j < |g.entries| && g.entries[j] == es[k];
        assert es[0].id == submission.id && es[k].id != es[0].id;
        assert j != 0;
        var s :| s in init && s.id == g.entries[j].id
          && SiblingEmbedding(submission, s, storage, model) == Ok(Some(g.entries[j].embedding));
        assert s in others;
      }
    }
  }

  /** The entries the contributing siblings give, in query order. */
  function Contributions(submission: Submission, others: seq<Submission>, storage: Storage, model: Embedder)
    : (es: seq<Entry>)
    ensures |es| <= |others|
    decreases |others|
  {
    if others == [] then []
    else
      var before := Contributions(submission, others[..|others| - 1], storage, model);
      var other := others[|others| - 1];
      match SiblingEmbedding(submission, other, storage, model)
      case Ok(Some(embedding)) => before + [Entry(other.id, embedding)]
      case _ => before
  }

  /** The submissions have pairwise different ids, as the rows of one query do. */
  predicate UniqueIds(others: seq<Submission>)
  {
    forall i, j :: 0 <= i < j < |others| ==> others[i].id != others[j].id
  }

  /** A contributing sibling whose id no earlier sibling has is appended to the dictionary. */
  lemma GatherAppends(submission: Submission, own: Vector, init: seq<Submission>, other: Submission,
                      storage: Storage, model: Embedder)
    requires Gather(submission, own, init, storage, model).Ok?
    requires Contributes(submission, other, storage, model)
    requires forall s :: s in init ==> s.id != other.id
    ensures Gather(submission, own, init + [other], storage, model)
      == Ok(Gathered(Gather(submission, own, init, storage, model).value.entries
                       + [Entry(other.id, SiblingEmbedding(submission, other, storage, model).value.value)],
                     Gather(submission, own, init, storage, model).value.names[other.id := other.student]))
  {
    var g := Gather(submission, own, init, storage, model).value;
    var e := Entry(other.id, SiblingEmbedding(submission, other, storage, model).value.value);
    GatherMembers(submission, own, init, storage, model, other.id);
    assert Put(g.entries, e) == g.entries + [e];
    assert (init + [other])[..|init + [other]| - 1] == init;
  }

  /** Among submissions with different ids, the last one's id is not that of any before it. */
  lemma UniqueIdsLast(others: seq<Submission>)
    requires others != [] && UniqueIds(others)
    ensures UniqueIds(others[..|others| - 1])
    ensures forall s :: s in others[..|others| - 1] ==> s.id != others[|others| - 1].id
  {
    var init := others[..|others| - 1];
    forall s | s in init ensures s.id != others[|others| - 1].id {
      var i :| 0 <= i < |init| && init[i] == s;
      assert others[i] == s;
    }
  }

  /**
   * With the siblings' ids all different, every assignment adds a new key, so
   * the dictionary is the student's own entry followed by the contributing
   * siblings' entries in query order: the order `check_plagiarism` walks.
   */
  lemma {:induction false} GatherInQueryOrder(submission: Submission, own: Vector, others: seq<Submission>,
                                              storage: Storage, model: Embedder)
    requires UniqueIds(others)
    requires Gather(submission, own, others, storage, model).Ok?
    ensures Gather(submission, own, others, storage, model).value.entries
      == [Entry(submission.id, own)] + Contributions(submission, others, storage, model)
    decreases |others|
  {
    if others != [] {
      var init := others[..|others| - 1];
      var other := others[|others| - 1];
      assert others == init + [other];
      UniqueIdsLast(others);
      GatherInQueryOrder(submission, own, init, storage, model);
      var g := Gather(submission, own, init, storage, model).value;
      var c := SiblingEmbedding(submission, other, storage, model);
      if c.Ok? && c.value.Some? {
        var e := Entry(other.id, c.value.value);
        GatherAppends(submission, own, init, other, storage, model);
        assert Contributions(submission, others, storage, model) == Contributions(submission, init, storage, model) + [e];
      } else {
        assert Gather(submission, own, others, storage, model).value.entries == g.entries;
        assert Contributions(submission, others, storage, model) == Contributions(submission, init, storage, model);
      }
    }
  }

  // ---------------------------------------------------------------------
  // Plagiarism feedback
  // ---------------------------------------------------------------------

  predicate Involves(flag: Flag, student: string)
  {
    flag.first == student || flag.second == student
  }

  /** `"{other_student} same {sim}%"` for a reported tuple naming `student`. */
  function Item(flag: Flag, student: string): string
  {
    var other := if flag.first == student then flag.second else flag.first;
    other + " same " + Show2(flag.percent) + "%"
  }

  /** The items for the reported tuples that name `student`, in order. */
  function PlagiarismItems(flags: seq<Flag>, student: string): (items: seq<string>)
    ensures |items| <= |flags|
  {
    if flags == [] then []
    else
      var items := PlagiarismItems(flags[..|flags| - 1], student);
      var last := flags[|flags| - 1];
      if Involves(last, student) then items + [Item(last, student)] else items
  }

  /** One reported tuple gives its item exactly when it names the student. */
  lemma PlagiarismItemsOne(flag: Flag, student: string)
    ensures PlagiarismItems([flag], student) == if Involves(flag, student) then [Item(flag, student)] else []
  {
    assert [flag][..0] == [];
  }

  /** The items of consecutive runs of tuples are concatenated in the same order. */
  lemma {:induction false} PlagiarismItemsConcat(a: seq<Flag>, b: seq<Flag>, student: string)
    ensures PlagiarismItems(a + b, student) == PlagiarismItems(a, student) + PlagiarismItems(b, student)
    decreases |b|
  {
    if b == [] {
      assert a + b == a;
    } else {
      var init, last := b[..|b| - 1], b[|b| - 1];
      var tail := if Involves(last, student) then [Item(last, student)] else [];
      assert (a + b)[..|a + b| - 1] == a + init;
      assert (a + b)[|a + b| - 1] == last;
      assert PlagiarismItems(a + b, student) == PlagiarismItems(a + init, student) + tail;
      assert PlagiarismItems(b, student) == PlagiarismItems(init, student) + tail;
      PlagiarismItemsConcat(a, init, student);
      var x, y := PlagiarismItems(a, student), PlagiarismItems(init, student);
      assert (x + y) + tail == x + (y + tail);
    }
  }

  /** The feedback with the plagiarism items, if any, appended. */
  function Annotate(feedback: string, items: seq<string>): string
  {
    if items == [] then feedback else feedback + PlagiarismSeparator + Join(", ", items)
  }

  // ---------------------------------------------------------------------
  // perform_create
  // ---------------------------------------------------------------------

  /** The reference embedding, or `None` when the reference file is missing, yields no text or encoding raised. */
  function ReferenceEmbedding(assignment: Assignment, storage: Storage, model: Embedder): Option<Vector>
  {
    match ReadStored(storage, assignment.file)
    case None => None
    case Some(text) =>
      if text == "" then None
      else match model.encode(text)
        case Err(_) => None
        case Ok(embedding) => Some(embedding)
  }

  /** The submission's text, or `None` when it has no file, the file is missing or yields no text. */
  function StudentText(submission: Submission, storage: Storage): (text: Option<string>)
    ensures text.Some? ==> text.value != ""
  {
    if submission.submittedFile == "" then None
    else match ReadStored(storage, submission.submittedFile)
      case None => None
      case Some(text) => if text == "" then None else Some(text)
  }

  /** The stored result once both texts are in hand, or `None` when encoding raised. */
  function Conclude(submission: Submission, assignment: Assignment, siblings: seq<Submission>,
                    storage: Storage, model: Embedder, correct: Vector, text: string): Option<Evaluation>
  {
    var e := Evaluate(text, correct, assignment.minWords, Keywords(assignment), assignment.maxMarks, model);
    match model.encode(text)
    case Err(_) => None
    case Ok(own) =>
      match Gather(submission, own, siblings, storage, model)
      case Err(_) => None
      case Ok(g) =>
        var flags := Detect(g.entries, g.names, model.cos);
        Some(Evaluation(e.marks, Annotate(e.feedback, PlagiarismItems(flags, submission.student))))
  }

  /**
   * The mark and feedback `perform_create` stores for `submission`, or `None`
   * when it returns (or its exception handler is reached) before storing.
   * `siblings` are the submissions of the same assignment, in query order.
   */
  function Outcome(submission: Submission, assignment: Assignment, siblings: seq<Submission>,
                   storage: Storage, model: Embedder): Option<Evaluation>
  {
    match ReferenceEmbedding(assignment, storage, model)
    case None => None
    case Some(correct) =>
      match StudentText(submission, storage)
      case None => None
      case Some(text) => Conclude(submission, assignment, siblings, storage, model, correct, text)
  }

  /** The loop that fills the two dictionaries from the other submissions. */
  method CollectEmbeddings(submission: Submission, own: Vector, siblings: seq<Submission>,
                           storage: Storage, model: Embedder) returns (g: Result<Gathered, string>)
    ensures g == Gather(submission, own, siblings, storage, model)
  {
    var entries := [Entry(submission.id, own)];
    var names: map<nat, string> := map[submission.id := submission.student];
    var k := 0;
    while k < |siblings|
      invariant 0 <= k <= |siblings|
      invariant Gather(submission, own, siblings[..k], storage, model) == Ok(Gathered(entries, names))
    {
      var other := siblings[k];
      assert siblings[..k + 1][..k] == siblings[..k];
      if other.id != submission.id && other.submittedFile != "" {
        var otherPath := JoinPath(storage.root, other.submittedFile);
        if otherPath in storage.files {
          var otherText := ExtractText(otherPath, storage.files[otherPath]);
          if otherText != "" {
            var otherEncoding := model.encode(otherText);
            if otherEncoding.Err? {
              assert SiblingEmbedding(submission, other, storage, model) == Err(otherEncoding.error);
              assert Gather(submission, own, siblings[..k + 1], storage, model) == Err(otherEncoding.error);
              GatherErrPersists(submission, own, siblings, k + 1, storage, model);
              return Err(otherEncoding.error);
            }
            entries := Put(entries, Entry(other.id, otherEncoding.value));
            names := names[other.id := other.student];
          }
        }
      }
      k := k + 1;
    }
    assert siblings[..k] == siblings;
    g := Ok(Gathered(entries, names));
  }

  /** The loop that turns the reported tuples naming `student` into feedback items. */
  method CollectItems(results: seq<Flag>, student: string) returns (items: seq<string>)
    ensures items == PlagiarismItems(results, student)
  {
    items := [];
    var l := 0;
    while l < |results|
      invariant 0 <= l <= |results|
      invariant items == PlagiarismItems(results[..l], student)
    {
      var flag := results[l];
      assert results[..l + 1][..l] == results[..l];
      if student == flag.first || student == flag.second {
        var otherStudent := if flag.first == student then flag.second else flag.first;
        items := items + [otherStudent + " same " + Show2(flag.percent) + "%"];
      }
      l := l + 1;
    }
    assert results[..l] == results;
  }

  /** `perform_create`, after the submission has been saved. */
  method PerformCreate(submission: Submission, assignment: Assignment, siblings: seq<Submission>,
                       storage: Storage, model: Embedder)
    modifies submission
    ensures var outcome := Outcome(submission, assignment, siblings, storage, model);
      (outcome.None? ==> submission.marks == old(submission.marks) && submission.feedback == old(submission.feedback))
      && (outcome.Some? ==> submission.marks == Some(outcome.value.marks) && submission.feedback == outcome.value.feedback)
  {
    var keywords := if assignment.requiredKeywords != [] then assignment.requiredKeywords else DefaultKeywords;

    var correctPath := JoinPath(storage.root, assignment.file);
    if correctPath !in storage.files {
      return;
    }
    var correctText := ExtractText(correctPath, storage.files[correctPath]);
    if correctText == "" {
      return;
    }
    var correctEncoding := model.encode(correctText);
    if correctEncoding.Err? {
      return;
    }
    var correct := correctEncoding.value;
    assert ReferenceEmbedding(assignment, storage, model) == Some(correct);

    if submission.submittedFile == "" {
      return;
    }
    var studentPath := JoinPath(storage.root, submission.submittedFile);
    if studentPath !in storage.files {
      return;
    }
    var studentText := ExtractText(studentPath, storage.files[studentPath]);
    if studentText == "" {
      return;
    }
    assert StudentText(submission, storage) == Some(studentText);

    var evaluation := Evaluate(studentText, correct, assignment.minWords, keywords, assignment.maxMarks, model);
    var marks, feedback := evaluation.marks, evaluation.feedback;

    var ownEncoding := model.encode(studentText);
    if ownEncoding.Err? {
      return;
    }
    var gathered := CollectEmbeddings(submission, ownEncoding.value, siblings, storage, model);
    if gathered.Err? {
      return;
    }

    var results := CheckPlagiarism(gathered.value.entries, gathered.value.names, model.cos);
    if results != [] {
      var items := CollectItems(results, submission.student);
      if items != [] {
        feedback := feedback + PlagiarismSeparator + Join(", ", items);
      }
    }

    submission.marks := Some(marks);
    submission.feedback := feedback;
  }

  // ---------------------------------------------------------------------
  // Properties of perform_create
  // ---------------------------------------------------------------------

  /** Every reported tuple naming the student gives an item with the other name and the percentage. */
  lemma {:induction false} PlagiarismItemsComplete(flags: seq<Flag>, student: string)
    ensures forall k :: 0 <= k < |flags| && Involves(flags[k], student) ==>
      Item(flags[k], student) in PlagiarismItems(flags, student)
  {
    if flags != [] {
      var init := flags[..|flags| - 1];
      PlagiarismItemsComplete(init, student);
      assert forall k :: 0 <= k < |init| ==> init[k] == flags[k];
    }
  }

  /** `item` is the item of some reported tuple that names `student`. */
  predicate ItemOfInvolving(flags: seq<Flag>, student: string, item: string)
  {
    exists k :: 0 <= k < |flags| && Involves(flags[k], student) && item == Item(flags[k], student)
  }

  /** Every item comes from a reported tuple naming the student. */
  lemma {:induction false} PlagiarismItemsSound(flags: seq<Flag>, student: string)
    ensures forall i :: 0 <= i < |PlagiarismItems(flags, student)| ==>
      ItemOfInvolving(flags, student, PlagiarismItems(flags, student)[i])
  {
    if flags != [] {
      var init := flags[..|flags| - 1];
      PlagiarismItemsSound(init, student);
      var before := PlagiarismItems(init, student);
      var items := PlagiarismItems(flags, student);
      forall i | 0 <= i < |items| ensures ItemOfInvolving(flags, student, items[i]) {
        if i < |before| {
          assert ItemOfInvolving(init, student, before[i]);
          var k :| 0 <= k < |init| && Involves(init[k], student) && before[i] == Item(init[k], student);
          assert flags[k] == init[k];
        } else {
          assert Involves(flags[|flags| - 1], student) && items[i] == Item(flags[|flags| - 1], student);
        }
      }
    }
  }

  /** There are no items exactly when no reported tuple names the student. */
  lemma PlagiarismItemsNone(flags: seq<Flag>, student: string)
    ensures PlagiarismItems(flags, student) == [] <==> forall k :: 0 <= k < |flags| ==> !Involves(flags[k], student)
  {
    PlagiarismItemsComplete(flags, student);
    PlagiarismItemsSound(flags, student);
  }

  /** The stored feedback starts with the scorer's feedback; the plagiarism part is appended only when there are items. */
  lemma AnnotateExtends(feedback: string, items: seq<string>)
    ensures feedback <= Annotate(feedback, items)
    ensures Annotate(feedback, items) == feedback <==> items == []
  {
    if items != [] {
      assert |Annotate(feedback, items)| > |feedback|;
    }
  }

  /**
   * Nothing is stored when the reference file is missing or yields no text,
   * when the submission has no file, or when its file is missing or yields no text.
   */
  lemma OutcomeNeedsBothTexts(submission: Submission, assignment: Assignment, siblings: seq<Submission>,
                              storage: Storage, model: Embedder)
    requires ReadStored(storage, assignment.file) in {None, Some("")}
          || submission.submittedFile == ""
          || ReadStored(storage, submission.submittedFile) in {None, Some("")}
    ensures Outcome(submission, assignment, siblings, storage, model) == None
  {
  }

  /**
   * A stored feedback is never an error message: the keyword list is never
   * empty, and the submission's text was encoded successfully (it is encoded
   * again, with the same result, for the plagiarism check).
   */
  lemma OutcomeNeverStoresError(submission: Submission, assignment: Assignment, siblings: seq<Submission>,
                                storage: Storage, model: Embedder)
    requires Outcome(submission, assignment, siblings, storage, model).Some?
    ensures !IsErrorFeedback(Outcome(submission, assignment, siblings, storage, model).value.feedback)
  {
    var correct := ReferenceEmbedding(assignment, storage, model).value;
    var text := StudentText(submission, storage).value;
    var keywords := Keywords(assignment);
    var e := Evaluate(text, correct, assignment.minWords, keywords, assignment.maxMarks, model);
    EvaluateErrorExactly(text, correct, assignment.minWords, keywords, assignment.maxMarks, model);
    EvaluateFeedbackLength(text, correct, assignment.minWords, keywords, assignment.maxMarks, model);
    var g := Gather(submission, model.encode(text).value, siblings, storage, model).value;
    AnnotateKeepsErrorStatus(e.feedback, PlagiarismItems(Detect(g.entries, g.names, model.cos), submission.student));
  }

  /** Appending the plagiarism items to a feedback of seven or more characters does not change whether it is an error message. */
  lemma AnnotateKeepsErrorStatus(feedback: string, items: seq<string>)
    requires |feedback| >= 7
    ensures IsErrorFeedback(Annotate(feedback, items)) <==> IsErrorFeedback(feedback)
  {
    AnnotateExtends(feedback, items);
    assert Annotate(feedback, items)[..7] == feedback[..7];
  }

  /**
   * A result is stored exactly when the reference text is encoded, the
   * submission's text is found and encoded, and no sibling's encoding raises;
   * it is then the scorer's mark, and the scorer's feedback with the items of
   * the reported pairs that name the student appended.
   */
  lemma OutcomeStores(submission: Submission, assignment: Assignment, siblings: seq<Submission>,
                      storage: Storage, model: Embedder)
    ensures Outcome(submission, assignment, siblings, storage, model).Some? <==>
      ReferenceEmbedding(assignment, storage, model).Some?
      && StudentText(submission, storage).Some?
      && model.encode(StudentText(submission, storage).value).Ok?
      && Gather(submission, model.encode(StudentText(submission, storage).value).value, siblings, storage, model).Ok?
    ensures Outcome(submission, assignment, siblings, storage, model).Some? ==>
      var text := StudentText(submission, storage).value;
      var e := Evaluate(text, ReferenceEmbedding(assignment, storage, model).value,
                        assignment.minWords, Keywords(assignment), assignment.maxMarks, model);
      var g := Gather(submission, model.encode(text).value, siblings, storage, model).value;
      Outcome(submission, assignment, siblings, storage, model).value
        == Evaluation(e.marks, Annotate(e.feedback, PlagiarismItems(Detect(g.entries, g.names, model.cos), submission.student)))
  {
  }

  /** With similarities in [0, 1] and a non-negative maximum, a stored mark lies in [0, round(max_marks, 2)]. */
  lemma OutcomeMarksBounded(submission: Submission, assignment: Assignment, siblings: seq<Submission>,
                            storage: Storage, model: Embedder)
    requires assignment.maxMarks >= 0.0
    requires forall u, v :: 0.0 <= model.cos(u, v) <= 1.0
    requires Outcome(submission, assignment, siblings, storage, model).Some?
    ensures 0.0 <= Outcome(submission, assignment, siblings, storage, model).value.marks <= Round2(assignment.maxMarks)
  {
    var correct := ReferenceEmbedding(assignment, storage, model).value;
    var text := StudentText(submission, storage).value;
    EvaluateMarksBounded(text, correct, assignment.minWords, Keywords(assignment), assignment.maxMarks, model);
  }

  // ---------------------------------------------------------------------
  // grade_submission
  // ---------------------------------------------------------------------

  /** The `marks` field of a grading request: absent (or null), a number, or a value `float()` rejects. */
  datatype MarksField = Absent | Given(value: real) | Unconvertible(message: string)

  const StatusOk: int := 200
  const StatusBadRequest: int := 400
  const StatusForbidden: int := 403

  /**
   * `grade_submission`: only the classroom's teacher may grade; the mark
   * changes only when one is given, the feedback only when one is given.
   */
  method GradeSubmission(submission: Submission, requester: nat, teacher: nat,
                         marks: MarksField, feedback: Option<string>) returns (status: int)
    modifies submission
    ensures requester != teacher ==> status == StatusForbidden && unchanged(submission)
    ensures requester == teacher && marks.Unconvertible? ==> status == StatusBadRequest && unchanged(submission)
    ensures requester == teacher && !marks.Unconvertible? ==>
      status == StatusOk
      && submission.marks == (if marks.Given? then Some(marks.value) else old(submission.marks))
      && submission.feedback == (if feedback.Some? then feedback.value else old(submission.feedback))
  {
    if requester != teacher {
      return StatusForbidden;
    }
    match marks {
      case Unconvertible(_) =>
        return StatusBadRequest;
      case Given(value) =>
        submission.marks := Some(value);
      case Absent =>
    }
    if feedback.Some? {
      submission.feedback := feedback.value;
    }
    status := StatusOk;
  }
}
