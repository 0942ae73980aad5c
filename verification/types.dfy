/**
 * The shared vocabulary of the heatmap: the closed set of body-part tags, the
 * daily history record and the body-part colour table.
 */
module Types {
  import opened Wrappers

  /** The eight muscle-group tags an exercise or a day can be attributed to. */
  datatype BodyPart = Chest | Back | Shoulders | Arms | Legs | Core | Cardio | FullBody

  /** Every body part, in declaration order. */
  const AllBodyParts: seq<BodyPart> := [Chest, Back, Shoulders, Arms, Legs, Core, Cardio, FullBody]

  /** Reads a stored tag back into a body part; None for any other string. */
  function ParseTag(s: string): Option<BodyPart> {
    if s == "chest" then Some(Chest)
    else if s == "back" then Some(Back)
    else if s == "shoulders" then Some(Shoulders)
    else if s == "arms" then Some(Arms)
    else if s == "legs" then Some(Legs)
    else if s == "core" then Some(Core)
    else if s == "cardio" then Some(Cardio)
    else if s == "full-body" then Some(FullBody)
    else None
  }

  /**
   * The tag under which a body part is stored and shown. Tags are non-empty,
   * contain no comma and do not start with a space, so a comma-separated list
   * of them can be taken apart again; ParseTag undoes Tag.
   */
  function Tag(b: BodyPart): (s: string)
    ensures ParseTag(s) == Some(b)
    ensures |s| > 0 && s[0] != ' '
    ensures forall i :: 0 <= i < |s| ==> s[i] != ','
  {
    match b
    case Chest => "chest"
    case Back => "back"
    case Shoulders => "shoulders"
    case Arms => "arms"
    case Legs => "legs"
    case Core => "core"
    case Cardio => "cardio"
    case FullBody => "full-body"
  }

  /** ParseTag accepts exactly the eight tags. */
  lemma ParseTagOnlyTags(s: string)
    ensures ParseTag(s).Some? <==> exists b :: Tag(b) == s
    ensures ParseTag(s).Some? ==> Tag(ParseTag(s).value) == s
  {
    if ParseTag(s).Some? {
      assert Tag(ParseTag(s).value) == s;
    }
  }

  /** The set of body parts is closed: exactly eight distinct tags. */
  lemma BodyPartsClosed()
    ensures |AllBodyParts| == 8
    ensures forall b: BodyPart :: b in AllBodyParts
    ensures forall i, j :: 0 <= i < j < |AllBodyParts| ==> AllBodyParts[i] != AllBodyParts[j]
    ensures forall i, j :: 0 <= i < j < |AllBodyParts| ==> Tag(AllBodyParts[i]) != Tag(AllBodyParts[j])
  {
    forall b: BodyPart ensures b in AllBodyParts {
      match b
      case Chest => assert AllBodyParts[0] == b;
      case Back => assert AllBodyParts[1] == b;
      case Shoulders => assert AllBodyParts[2] == b;
      case Arms => assert AllBodyParts[3] == b;
      case Legs => assert AllBodyParts[4] == b;
      case Core => assert AllBodyParts[5] == b;
      case Cardio => assert AllBodyParts[6] == b;
      case FullBody => assert AllBodyParts[7] == b;
    }
    forall i, j | 0 <= i < j < |AllBodyParts|
      ensures Tag(AllBodyParts[i]) != Tag(AllBodyParts[j])
    {
      assert ParseTag(Tag(AllBodyParts[i])) == Some(AllBodyParts[i]);
      assert ParseTag(Tag(AllBodyParts[j])) == Some(AllBodyParts[j]);
    }
  }

  /** One day's record: which body parts were trained and which workouts did it. */
  datatype WorkoutHistory = WorkoutHistory(
    id: string,
    date: string,            // calendar day, YYYY-MM-DD
    bodyParts: seq<BodyPart>,
    workoutIds: seq<string>
  )

  /** The colour of a day with no recorded body part (gray-800). */
  const NoWorkoutColor: string := "#1f2937"

  predicate IsLowerHexDigit(c: char) {
    '0' <= c <= '9' || 'a' <= c <= 'f'
  }

  /** A CSS colour of the form '#' followed by six lower-case hex digits. */
  predicate IsHexColor(c: string) {
    |c| == 7 && c[0] == '#' && forall i :: 1 <= i < 7 ==> IsLowerHexDigit(c[i])
  }

  /** Inverse of the colour table: which body part, if any, a colour stands for. */
  function BodyPartOfColor(c: string): Option<BodyPart> {
    if c == "#ef4444" then Some(Chest)
    else if c == "#3b82f6" then Some(Back)
    else if c == "#f59e0b" then Some(Shoulders)
    else if c == "#8b5cf6" then Some(Arms)
    else if c == "#10b981" then Some(Legs)
    else if c == "#ec4899" then Some(Core)
    else if c == "#06b6d4" then Some(Cardio)
    else if c == "#6366f1" then Some(FullBody)
    else None
  }

  /**
   * The body-part colour table. It is total over BodyPart, every colour is a
   * well-formed lower-case hex colour, none is the no-workout colour, and the
   * colour determines the body part.
   */
  function Color(b: BodyPart): (c: string)
    ensures IsHexColor(c)
    ensures c != NoWorkoutColor
    ensures BodyPartOfColor(c) == Some(b)
  {
    match b
    case Chest => "#ef4444"      // red
    case Back => "#3b82f6"       // blue
    case Shoulders => "#f59e0b"  // amber
    case Arms => "#8b5cf6"       // violet
    case Legs => "#10b981"       // emerald
    case Core => "#ec4899"       // pink
    case Cardio => "#06b6d4"     // cyan
    case FullBody => "#6366f1"   // indigo
  }

  /** The eight colours are pairwise distinct. */
  lemma ColorInjective(a: BodyPart, b: BodyPart)
    ensures Color(a) == Color(b) <==> a == b
  {
    if Color(a) == Color(b) {
      assert BodyPartOfColor(Color(a)) == Some(a);
      assert BodyPartOfColor(Color(b)) == Some(b);
    }
  }

  /** No body-part colour is the no-workout colour and every one is well formed. */
  lemma ColorsDistinctFromNoWorkout()
    ensures IsHexColor(NoWorkoutColor)
    ensures forall b :: Color(b) != NoWorkoutColor && IsHexColor(Color(b))
  {
  }
}
