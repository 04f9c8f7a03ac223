/** Lists of sequences that rise. */
module RisingLists {

  /** Each number is larger than the one before, the first larger than `from`. */
  predicate Rising(from: nat, list: seq<nat>)
    decreases |list|
  {
    list != [] ==> list[0] > from && Rising(list[0], list[1..])
  }

  lemma {:induction false} RisingFrom(from: nat, later: nat, list: seq<nat>)
    requires from <= later && Rising(later, list)
    ensures Rising(from, list)
  {}

  lemma {:induction false} RisingPrefix(from: nat, list: seq<nat>, longer: seq<nat>)
    requires Rising(from, longer) && list <= longer
    ensures Rising(from, list)
    decreases |list|
  {
    if list != [] { RisingPrefix(list[0], list[1..], longer[1..]); }
  }

  /** How often a number occurs. */
  function Times(list: seq<nat>, x: nat): nat {
    if list == [] then 0 else (if list[0] == x then 1 else 0) + Times(list[1..], x)
  }

  lemma {:induction false} TimesPrefix(list: seq<nat>, longer: seq<nat>, x: nat)
    requires list <= longer
    ensures Times(list, x) <= Times(longer, x)
    decreases |list|
  {
    if list != [] { TimesPrefix(list[1..], longer[1..], x); }
  }

  /** What rises has nothing twice. */
  lemma {:induction false} RisingIsOnce(from: nat, list: seq<nat>, x: nat)
    requires Rising(from, list)
    ensures Times(list, x) <= 1 && (x <= from ==> Times(list, x) == 0)
    decreases |list|
  {
    if list != [] { RisingIsOnce(list[0], list[1..], x); }
  }
}
