/** The order-status vocabulary and its lenient string parser. */
module Status {
  import opened Optional

  /** The four enum constants, in declaration order. */
  datatype OrderStatus = NOWE | W_TRAKCIE | ZAKONCZONE | ANULOWANE

  const AllStatuses: set<OrderStatus> := {NOWE, W_TRAKCIE, ZAKONCZONE, ANULOWANE}

  /** The constant's name, as the enum's `name()` spells it. */
  function Name(s: OrderStatus): string
  {
    match s
    case NOWE => "NOWE"
    case W_TRAKCIE => "W_TRAKCIE"
    case ZAKONCZONE => "ZAKONCZONE"
    case ANULOWANE => "ANULOWANE"
  }

  /** `toValidStatus`: a null string gives empty; otherwise the enum's exact,
      case-sensitive `valueOf` lookup, whose exception for an unknown name is
      caught and turned into empty. The parser never fails. */
  function ToValidStatus(text: Option<string>): (r: Option<OrderStatus>)
    ensures text.None? ==> r.None?
    ensures forall s :: r == Some(s) <==> text == Some(Name(s))
  {
    match text
    case None => None
    case Some(t) =>
      if t == "NOWE" then Some(NOWE)
      else if t == "W_TRAKCIE" then Some(W_TRAKCIE)
      else if t == "ZAKONCZONE" then Some(ZAKONCZONE)
      else if t == "ANULOWANE" then Some(ANULOWANE)
      else None
  }

  /** The vocabulary is closed: exactly four constants, all with distinct names. */
  lemma VocabularyIsClosed()
    ensures |AllStatuses| == 4
    ensures forall s: OrderStatus :: s in AllStatuses
    ensures forall a, b :: Name(a) == Name(b) ==> a == b
  {
    forall s: OrderStatus
      ensures s in AllStatuses
    {
      match s
      case NOWE =>
      case W_TRAKCIE =>
      case ZAKONCZONE =>
      case ANULOWANE =>
    }
    forall a, b | Name(a) == Name(b)
      ensures a == b
    {
      ParseRoundTrip(a);
      ParseRoundTrip(b);
    }
  }

  /** Parsing a constant's own name gives that constant back. */
  lemma ParseRoundTrip(s: OrderStatus)
    ensures ToValidStatus(Some(Name(s))) == Some(s)
  {
  }

  /** A successful parse determines its input: two inputs that parse to the
      same status are the same string. */
  lemma ParseIsInjective(a: Option<string>, b: Option<string>)
    requires ToValidStatus(a).Some?
    requires ToValidStatus(a) == ToValidStatus(b)
    ensures a == b
  {
  }

  /** ASCII lower-casing, one character at a time. */
  function Lower(t: string): (r: string)
    ensures |r| == |t|
    ensures forall i :: 0 <= i < |t| && 'A' <= t[i] <= 'Z' ==> 'a' <= r[i] <= 'z'
  {
    seq(|t|, i requires 0 <= i < |t| =>
      if 'A' <= t[i] <= 'Z' then (t[i] as int + 32) as char else t[i])
  }

  /** A name with its first character kept and the rest lower-cased. */
  function Capitalise(t: string): (r: string)
    ensures |r| == |t|
    ensures forall i :: 1 <= i < |t| && 'A' <= t[i] <= 'Z' ==> 'a' <= r[i] <= 'z'
  {
    if |t| == 0 then t else t[..1] + Lower(t[1..])
  }

  /** Letter case matters: no status name holds a lower-case letter, so any
      string that holds one parses to empty, among them the lower-cased and
      the capitalised name of every status. The empty string parses to empty
      too. */
  lemma ParseIsCaseSensitive()
    ensures forall t: string, i :: 0 <= i < |t| && 'a' <= t[i] <= 'z' ==> ToValidStatus(Some(t)).None?
    ensures forall s :: ToValidStatus(Some(Lower(Name(s)))).None?
    ensures forall s :: ToValidStatus(Some(Capitalise(Name(s)))).None?
    ensures ToValidStatus(Some("")).None?
  {
    forall t: string, i | 0 <= i < |t| && 'a' <= t[i] <= 'z'
      ensures ToValidStatus(Some(t)).None?
    {
      if ToValidStatus(Some(t)).Some? {
        NameIsUpperCase(ToValidStatus(Some(t)).value);
      }
    }
    forall s: OrderStatus
      ensures |Name(s)| > 2 && 'A' <= Name(s)[2] <= 'Z'
    {
      NameIsUpperCase(s);
    }
  }

  /** Every status name is written in capitals and underscores. */
  lemma NameIsUpperCase(s: OrderStatus)
    ensures |Name(s)| > 2 && 'A' <= Name(s)[2] <= 'Z'
    ensures forall i :: 0 <= i < |Name(s)| ==> Name(s)[i] == '_' || 'A' <= Name(s)[i] <= 'Z'
  {
    match s
    case NOWE => assert Name(s) == ['N', 'O', 'W', 'E'];
    case W_TRAKCIE => assert Name(s) == ['W', '_', 'T', 'R', 'A', 'K', 'C', 'I', 'E'];
    case ZAKONCZONE => assert Name(s) == ['Z', 'A', 'K', 'O', 'N', 'C', 'Z', 'O', 'N', 'E'];
    case ANULOWANE => assert Name(s) == ['A', 'N', 'U', 'L', 'O', 'W', 'A', 'N', 'E'];
  }
}
