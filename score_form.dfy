/** The student's score form (scoolize/src/components/Student/ScoreForm.tsx): four subject
    scores, their average, the import of the scores read off a bulletin, and the choice
    between updating the stored record and inserting a new one. */
module ScoreForm {
  import opened Wrappers
  import Subjects
  import ScoreParser

  /** The four score fields of the form. */
  datatype Field = MathField | FrenchField | EnglishField | ScienceField

  /** A score handed over by the bulletin reader; its subject is a free string here. */
  datatype ScoreEntry = ScoreEntry(subject: string, score: real, confidence: real)

  /** The `switch` of `handleOCRScores`: the subject names each field accepts. */
  function Route(subject: string): Option<Field> {
    if subject == "math" || subject == "math\U{00E9}matiques" then Some(MathField)
    else if subject == "french" || subject == "fran\U{00E7}ais" || subject == "francais" then Some(FrenchField)
    else if subject == "english" || subject == "anglais" then Some(EnglishField)
    else if subject == "physics" || subject == "chemistry" || subject == "biology"
         || subject == "science" || subject == "sciences" then Some(ScienceField)
    else None
  }

  /** The values of the four fields. */
  datatype Scores = Scores(math: real, french: real, english: real, science: real)

  function Get(s: Scores, f: Field): real {
    match f
    case MathField => s.math
    case FrenchField => s.french
    case EnglishField => s.english
    case ScienceField => s.science
  }

  /** The effect of one entry: the field it is routed to takes its score. */
  function Take(s: Scores, e: ScoreEntry): (r: Scores)
    ensures forall f :: Get(r, f) == if Route(e.subject) == Some(f) then e.score else Get(s, f)
  {
    match Route(e.subject)
    case None => s
    case Some(MathField) => s.(math := e.score)
    case Some(FrenchField) => s.(french := e.score)
    case Some(EnglishField) => s.(english := e.score)
    case Some(ScienceField) => s.(science := e.score)
  }

  /** The fields after the entries have been taken in list order. */
  function Imported(s: Scores, entries: seq<ScoreEntry>): Scores
    decreases |entries|
  {
    if |entries| == 0 then s else Take(Imported(s, entries[..|entries| - 1]), entries[|entries| - 1])
  }

  /** The index of the last entry routed to field `f`, if any. */
  function LastFor(entries: seq<ScoreEntry>, f: Field): (r: Option<nat>)
    ensures r.Some? ==> r.value < |entries| && Route(entries[r.value].subject) == Some(f)
    ensures forall k :: 0 <= k < |entries| && (r.None? || r.value < k) ==> Route(entries[k].subject) != Some(f)
    decreases |entries|
  {
    if |entries| == 0 then None
    else if Route(entries[|entries| - 1].subject) == Some(f) then Some(|entries| - 1)
    else LastFor(entries[..|entries| - 1], f)
  }

  /** Each field ends with the score of the last entry routed to it, and a field no entry
      is routed to keeps its value. */
  lemma {:induction false} ImportedField(s: Scores, entries: seq<ScoreEntry>, f: Field)
    ensures Get(Imported(s, entries), f) == match LastFor(entries, f)
                                            case None => Get(s, f)
                                            case Some(k) => entries[k].score
    decreases |entries|
  {
    if |entries| > 0 {
      var init := entries[..|entries| - 1];
      ImportedField(s, init, f);
      if Route(entries[|entries| - 1].subject) != Some(f) {
        assert LastFor(entries, f) == LastFor(init, f);
        match LastFor(init, f)
        case None =>
        case Some(k) => assert init[k] == entries[k];
      }
    }
  }

  /** An entry whose subject no case accepts changes no field. */
  lemma UnknownSubjectChangesNothing(s: Scores, entries: seq<ScoreEntry>, e: ScoreEntry)
    requires Route(e.subject).None?
    ensures Imported(s, entries + [e]) == Imported(s, entries)
  {
    assert (entries + [e])[..|entries|] == entries;
  }

  /** Of two entries for the same field, the later one wins. */
  lemma LaterEntryWins(s: Scores, entries: seq<ScoreEntry>, e1: ScoreEntry, e2: ScoreEntry, f: Field)
    requires Route(e1.subject) == Some(f) && Route(e2.subject) == Some(f)
    ensures Get(Imported(s, entries + [e1, e2]), f) == e2.score
  {
    var all := entries + [e1, e2];
    assert all[..|all| - 1] == entries + [e1];
  }

  /** The average of the four fields lies between the smallest and the largest of them. */
  function Average(s: Scores): (avg: real)
    ensures avg >= s.math || avg >= s.french || avg >= s.english || avg >= s.science
    ensures avg <= s.math || avg <= s.french || avg <= s.english || avg <= s.science
    ensures 0.0 <= s.math <= 20.0 && 0.0 <= s.french <= 20.0 && 0.0 <= s.english <= 20.0 && 0.0 <= s.science <= 20.0
            ==> 0.0 <= avg <= 20.0
  {
    (s.math + s.french + s.english + s.science) / 4.0
  }

  /** The subject keys the bulletin reader produces each reach their own field. */
  lemma ReaderSubjectsRouted(subject: Subjects.Subject)
    ensures Route(Subjects.SubjectName(subject)) == Some(match subject
                                                       case Math => MathField
                                                       case French => FrenchField
                                                       case English => EnglishField
                                                       case Science => ScienceField)
  {
  }

  /** The entries as the bulletin reader hands them over. */
  function FromReader(scores: seq<ScoreParser.ExtractedScore>): (r: seq<ScoreEntry>)
    ensures |r| == |scores|
    ensures forall k :: 0 <= k < |r| ==>
              r[k] == ScoreEntry(Subjects.SubjectName(scores[k].subject), scores[k].score, scores[k].confidence)
  {
    if |scores| == 0 then []
    else FromReader(scores[..|scores| - 1])
         + [ScoreEntry(Subjects.SubjectName(scores[|scores| - 1].subject), scores[|scores| - 1].score, scores[|scores| - 1].confidence)]
  }

  /** Importing what the reader extracted from any text keeps every field within [0, 20]
      when it was, so the average stays within [0, 20]. */
  lemma {:induction false} ImportKeepsBulletinRange(s: Scores, entries: seq<ScoreEntry>)
    requires 0.0 <= s.math <= 20.0 && 0.0 <= s.french <= 20.0 && 0.0 <= s.english <= 20.0 && 0.0 <= s.science <= 20.0
    requires forall k :: 0 <= k < |entries| ==> 0.0 <= entries[k].score <= 20.0
    ensures var r := Imported(s, entries);
            0.0 <= r.math <= 20.0 && 0.0 <= r.french <= 20.0 && 0.0 <= r.english <= 20.0 && 0.0 <= r.science <= 20.0
    decreases |entries|
  {
    if |entries| > 0 {
      ImportKeepsBulletinRange(s, entries[..|entries| - 1]);
    }
  }

  lemma ImportParsedScores(s: Scores, text: string)
    requires 0.0 <= s.math <= 20.0 && 0.0 <= s.french <= 20.0 && 0.0 <= s.english <= 20.0 && 0.0 <= s.science <= 20.0
    ensures 0.0 <= Average(Imported(s, FromReader(ScoreParser.ParseScores(text)))) <= 20.0
  {
    ImportKeepsBulletinRange(s, FromReader(ScoreParser.ParseScores(text)));
  }

  /** The stored `student_scores` row the form was loaded from. */
  datatype StoredScore = StoredScore(id: string, academicYear: string, math: real, french: real, english: real, science: real)

  /** `scoreData`. */
  datatype Payload = Payload(studentId: string, academicYear: string, math: real, french: real,
                             english: real, science: real, average: real)

  /** The write `handleSubmit` sends: an update of the loaded row or an insert. */
  datatype Write = Update(id: string, payload: Payload) | Insert(payload: Payload)

  /** The state of the form component. */
  class ScoreForm {
    const userId: string
    var academicYear: string
    var mathScore: real
    var frenchScore: real
    var englishScore: real
    var scienceScore: real
    var existingScore: Option<StoredScore>
    var showOCR: bool

    /** The initial state; `currentYear` is the year of the clock at mount time. */
    constructor (userId: string, currentYear: string)
      ensures this.userId == userId && academicYear == currentYear
      ensures Current() == Scores(0.0, 0.0, 0.0, 0.0)
      ensures existingScore.None? && !showOCR
    {
      this.userId := userId;
      academicYear := currentYear;
      mathScore, frenchScore, englishScore, scienceScore := 0.0, 0.0, 0.0, 0.0;
      existingScore := None;
      showOCR := false;
    }

    function Current(): Scores
      reads this
    {
      Scores(mathScore, frenchScore, englishScore, scienceScore)
    }

    /** `averageScore`, recomputed on every render. */
    function AverageScore(): real
      reads this
    {
      Average(Current())
    }

    /** `loadExistingScores` once the query has answered: `data` is the latest row, or
      `None` when there is none or the query failed. */
    method LoadExistingScores(data: Option<StoredScore>)
      modifies this
      ensures data.None? ==> academicYear == old(academicYear) && Current() == old(Current())
                             && existingScore == old(existingScore)
      ensures data.Some? ==> existingScore == data && academicYear == data.value.academicYear
                             && Current() == Scores(data.value.math, data.value.french, data.value.english, data.value.science)
      ensures showOCR == old(showOCR)
    {
      if data.Some? {
        var row := data.value;
        existingScore := data;
        academicYear := row.academicYear;
        mathScore := row.math;
        frenchScore := row.french;
        englishScore := row.english;
        scienceScore := row.science;
      }
    }

    /** `handleOCRScores`: each extracted entry in turn sets the field its subject is
      routed to; then the form is shown again. */
    method HandleOCRScores(extracted: seq<ScoreEntry>)
      modifies this
      ensures Current() == Imported(old(Current()), extracted)
      ensures !showOCR
      ensures academicYear == old(academicYear) && existingScore == old(existingScore)
    {
      var k := 0;
      while k < |extracted|
        invariant k <= |extracted|
        invariant Current() == Imported(old(Current()), extracted[..k])
        invariant academicYear == old(academicYear) && existingScore == old(existingScore)
      {
        var entry := extracted[k];
        match Route(entry.subject) {
          case Some(MathField) => mathScore := entry.score;
          case Some(FrenchField) => frenchScore := entry.score;
          case Some(EnglishField) => englishScore := entry.score;
          case Some(ScienceField) => scienceScore := entry.score;
          case None =>
        }
        assert extracted[..k + 1][..k] == extracted[..k];
        k := k + 1;
      }
      assert extracted[..k] == extracted;
      showOCR := false;
    }

    /** The choice made by `handleSubmit`: the loaded row is updated when there is one,
      otherwise a new row is inserted; either way with the current year, the four current
      fields and their average. */
    method HandleSubmit() returns (write: Write)
      ensures write.Update? <==> existingScore.Some?
      ensures write.Update? ==> write.id == existingScore.value.id
      ensures write.payload == Payload(userId, academicYear, mathScore, frenchScore, englishScore, scienceScore, AverageScore())
    {
      var scoreData := Payload(userId, academicYear, mathScore, frenchScore, englishScore, scienceScore, AverageScore());
      if existingScore.Some? {
        write := Update(existingScore.value.id, scoreData);
      } else {
        write := Insert(scoreData);
      }
    }
  }

  /** Submitting leaves the loaded record as it was (a successful write only notifies), so
      on a form that found no stored row every submit is an insert, with the same payload
      while the fields are unchanged. */
  method SubmitTwiceOnFreshForm(userId: string, currentYear: string) returns (first: Write, second: Write)
    ensures first.Insert? && second.Insert?
    ensures first == second
    ensures first.payload.studentId == userId && first.payload.academicYear == currentYear
  {
    var form := new ScoreForm(userId, currentYear);
    first := form.HandleSubmit();
    second := form.HandleSubmit();
  }
}
