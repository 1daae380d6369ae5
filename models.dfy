/**
 * The task manager's records: a process (PID key, priority, creation time),
 * its priority enumeration, and the transfer object the API exchanges.
 */
module Models {

  import opened Wrappers

  /** The three priorities; the enumeration gives them the values 1, 2 and 3. */
  datatype Priority = Low | Medium | High

  /** The underlying value of a priority: low = 1, medium = 2, high = 3. */
  function Rank(p: Priority): (r: int)
    ensures 1 <= r <= 3
    ensures r == 1 <==> p == Low
    ensures r == 3 <==> p == High
  {
    match p
    case Low => 1
    case Medium => 2
    case High => 3
  }

  /** The `<` of the enumeration, which compares the underlying values. */
  predicate Below(a: Priority, b: Priority) {
    Rank(a) < Rank(b)
  }

  /** `Below` is a strict total order with Low at the bottom and High at the top. */
  lemma BelowIsStrictTotalOrder(a: Priority, b: Priority, c: Priority)
    ensures !Below(a, a)
    ensures Below(a, b) ==> !Below(b, a)
    ensures Below(a, b) && Below(b, c) ==> Below(a, c)
    ensures a == b || Below(a, b) || Below(b, a)
    ensures !Below(a, Low) && !Below(High, a)
  {
  }

  /** The enumeration member's name, as the API renders it. */
  function PriorityName(p: Priority): (r: string)
    ensures r == "low" || r == "medium" || r == "high"
  {
    match p
    case Low => "low"
    case Medium => "medium"
    case High => "high"
  }

  /** Case-sensitive parse of an enumeration member's name; None where the parse would fail. */
  function ParsePriority(s: string): (r: Option<Priority>)
    ensures r.Some? ==> PriorityName(r.value) == s
    ensures r.None? <==> s != "low" && s != "medium" && s != "high"
  {
    if s == "low" then Some(Low)
    else if s == "medium" then Some(Medium)
    else if s == "high" then Some(High)
    else None
  }

  /** Rendering a priority and parsing the name back gives the priority again. */
  lemma NameRoundTrip(p: Priority)
    ensures ParsePriority(PriorityName(p)) == Some(p)
  {
  }

  /** Lower-casing of one character (ASCII letters only). */
  function LowerChar(c: char): char {
    if 'A' <= c <= 'Z' then (c as int + 32) as char else c
  }

  /** Lower-casing of a string, character by character. */
  function Lower(s: string): (r: string)
    ensures |r| == |s|
  {
    seq(|s|, i requires 0 <= i < |s| => LowerChar(s[i]))
  }

  /**
   * Whether a priority's name equals `name` when both are lower-cased. Priority
   * names are already lower case, so this compares the lower-cased argument
   * with the name itself.
   */
  function MatchesName(p: Priority, name: string): (r: bool)
    ensures r <==> Lower(name) == PriorityName(p)
  {
    Lower(PriorityName(p)) == Lower(name)
  }

  /** A name matches at most one priority. */
  lemma MatchesNameUnique(p: Priority, q: Priority, name: string)
    requires MatchesName(p, name) && MatchesName(q, name)
    ensures p == q
  {
  }

  /** Examples: upper-case spellings of a name match too. */
  lemma MatchesUpperCaseName()
    ensures MatchesName(High, "HIGH") && MatchesName(Low, "Low")
    ensures !MatchesName(Medium, "high")
  {
  }

  /** A stored process; `createdAt` is a tick of the logical clock. */
  datatype Process = Process(pid: int, priority: Priority, createdAt: nat)

  /** The transfer object: priority as its name, creation time as the clock tick. */
  datatype ProcessDTO = ProcessDTO(pid: int, priority: string, createdAt: nat)

}
