/**
 The rows of the shootings table after loading: the twelve key columns the
 table is grouped by and the mean `age`, and the dimensions the map can be
 coloured by.
 */
module Events {
  import opened Wrappers
  import opened Calendar
  import opened Ordering

  /** The twelve grouping columns, in the table's column order. */
  datatype EventKey = EventKey(
    state: string,
    date: ValidDate,
    mannerOfDeath: string,
    armed: string,
    gender: string,
    race: string,
    city: string,
    signsOfMentalIllness: bool,
    threatLevel: string,
    flee: string,
    bodyCamera: bool,
    armsCategory: string)

  /** One row: its key and its `age`, missing (NaN) when no age is known. */
  datatype Event = Event(key: EventKey, age: Option<real>)

  /** The dimensions offered by the main dropdown (columns 2-5 and 7-12 of the table). */
  datatype Column =
    | MannerOfDeath | Armed | Gender | Race | SignsOfMentalIllness
    | ThreatLevel | Flee | BodyCamera | ArmsCategory | Age

  const Dimensions: seq<Column> :=
    [MannerOfDeath, Armed, Gender, Race, SignsOfMentalIllness, ThreatLevel, Flee, BodyCamera, ArmsCategory, Age]

  function ColumnName(c: Column): string {
    match c
    case MannerOfDeath => "manner_of_death"
    case Armed => "armed"
    case Gender => "gender"
    case Race => "race"
    case SignsOfMentalIllness => "signs_of_mental_illness"
    case ThreatLevel => "threat_level"
    case Flee => "flee"
    case BodyCamera => "body_camera"
    case ArmsCategory => "arms_category"
    case Age => "age"
  }

  /** The dropdown value naming a dimension, if it names one. */
  function ParseColumn(name: string): (r: Option<Column>)
    ensures r.Some? ==> ColumnName(r.value) == name
  {
    if name == "manner_of_death" then Some(MannerOfDeath)
    else if name == "armed" then Some(Armed)
    else if name == "gender" then Some(Gender)
    else if name == "race" then Some(Race)
    else if name == "signs_of_mental_illness" then Some(SignsOfMentalIllness)
    else if name == "threat_level" then Some(ThreatLevel)
    else if name == "flee" then Some(Flee)
    else if name == "body_camera" then Some(BodyCamera)
    else if name == "arms_category" then Some(ArmsCategory)
    else if name == "age" then Some(Age)
    else None
  }

  /** Every dropdown dimension is read back from its name, and the names differ. */
  lemma ColumnNamesRoundTrip(c: Column)
    ensures ParseColumn(ColumnName(c)) == Some(c)
    ensures c in Dimensions
  {
  }

  /** Python's `str` of a boolean. */
  function BoolText(b: bool): string {
    if b then "True" else "False"
  }

  /**
   The category value of row `e` in dimension `c`; a boolean column is turned
   into the text of its value first, as `astype(str)` does for the selected one.
   */
  function Value(e: Event, c: Column): string
    requires c != Age
  {
    match c
    case MannerOfDeath => e.key.mannerOfDeath
    case Armed => e.key.armed
    case Gender => e.key.gender
    case Race => e.key.race
    case SignsOfMentalIllness => BoolText(e.key.signsOfMentalIllness)
    case ThreatLevel => e.key.threatLevel
    case Flee => e.key.flee
    case BodyCamera => BoolText(e.key.bodyCamera)
    case ArmsCategory => e.key.armsCategory
  }

  // ---------------------------------------------------------------------------
  // The order `groupby` sorts keys in

  /** One field of a key: a text, a date or a flag. */
  datatype Atom = Text(s: string) | Day(d: Date) | Flag(b: bool)

  function AtomRank(x: Atom): int {
    match x
    case Text(_) => 0
    case Day(_) => 1
    case Flag(_) => 2
  }

  /** Texts by code points, dates by the calendar, `False` before `True`. */
  predicate AtomLess(x: Atom, y: Atom) {
    match (x, y)
    case (Text(a), Text(b)) => StrLess(a, b)
    case (Day(a), Day(b)) => Before(a, b)
    case (Flag(a), Flag(b)) => !a && b
    case _ => AtomRank(x) < AtomRank(y)
  }

  lemma AtomLessIsStrictTotalOrder()
    ensures StrictTotalOrder(AtomLess)
  {
    StrLessIsStrictTotalOrder();
    forall x: Atom, y: Atom, z: Atom | AtomLess(x, y) && AtomLess(y, z)
      ensures AtomLess(x, z)
    {
      if x.Day? && y.Day? && z.Day? {
        BeforeIsStrictTotal(x.d, y.d, z.d);
      }
    }
    forall x: Atom, y: Atom | x != y
      ensures AtomLess(x, y) || AtomLess(y, x)
    {
      if x.Day? && y.Day? {
        BeforeIsStrictTotal(x.d, y.d, x.d);
      }
    }
    forall x: Atom
      ensures !AtomLess(x, x)
    {
      if x.Day? {
        BeforeIsStrictTotal(x.d, x.d, x.d);
      }
    }
  }

  /** The fields of a key in column order. */
  function Atoms(k: EventKey): (a: seq<Atom>)
    ensures |a| == 12
  {
    [Text(k.state), Day(k.date), Text(k.mannerOfDeath), Text(k.armed), Text(k.gender), Text(k.race),
     Text(k.city), Flag(k.signsOfMentalIllness), Text(k.threatLevel), Text(k.flee), Flag(k.bodyCamera),
     Text(k.armsCategory)]
  }

  /** The sorted order of `groupby` over the twelve key columns: lexicographic over the fields. */
  predicate KeyLess(a: EventKey, b: EventKey) {
    LexLess(Atoms(a), Atoms(b), AtomLess)
  }

  lemma KeyLessIsStrictTotalOrder()
    ensures StrictTotalOrder(KeyLess)
  {
    AtomLessIsStrictTotalOrder();
    forall a: EventKey
      ensures !KeyLess(a, a)
    {
      LexIrreflexive(Atoms(a), AtomLess);
    }
    forall a: EventKey, b: EventKey, c: EventKey | KeyLess(a, b) && KeyLess(b, c)
      ensures KeyLess(a, c)
    {
      LexTransitive(Atoms(a), Atoms(b), Atoms(c), AtomLess);
    }
    forall a: EventKey, b: EventKey | a != b
      ensures KeyLess(a, b) || KeyLess(b, a)
    {
      LexTotal(Atoms(a), Atoms(b), AtomLess);
    }
  }
}
