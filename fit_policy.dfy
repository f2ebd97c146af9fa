/** The reuse policy of `best_fit`, stated over the effective sizes of the free
    blocks in free-list order: which position (if any) the scan settles on. */
module FitPolicy {

  datatype Option<T> = None | Some(value: T)

  /** u32.MAX_VALUE, the scan's initial "best size". */
  const U32_MAX: nat := 0xFFFF_FFFF

  /** The fragmentation ceiling `ls + ls / 4`, evaluated in u32 arithmetic
      (it wraps modulo 2^32 for requests above 0xCCCC_CCCC). */
  function Tolerance(ls: nat): nat
  {
    (ls + ls / 4) % 0x1_0000_0000
  }

  /** A block the scan keeps as "best fit so far" candidate: larger than the
      request, and below the initial best size, which no block can beat. */
  predicate Candidate(es: nat, ls: nat)
  {
    ls < es < U32_MAX
  }

  /** k is the first position holding exactly the requested size. */
  predicate IsFirstExact(sizes: seq<nat>, ls: nat, k: nat)
  {
    k < |sizes| && sizes[k] == ls && forall j :: 0 <= j < k ==> sizes[j] != ls
  }

  /** k is the first position holding the least candidate size. */
  predicate IsFirstLeast(sizes: seq<nat>, ls: nat, k: nat)
  {
    k < |sizes| && Candidate(sizes[k], ls) &&
    (forall j :: 0 <= j < |sizes| && Candidate(sizes[j], ls) ==> sizes[k] <= sizes[j]) &&
    (forall j :: 0 <= j < k && Candidate(sizes[j], ls) ==> sizes[k] < sizes[j])
  }

  /** The block best_fit returns, declaratively: the first exact fit; failing
      that, the first least candidate provided it is within the tolerance. */
  predicate IsChoice(sizes: seq<nat>, ls: nat, k: nat)
  {
    IsFirstExact(sizes, ls, k) ||
    ((forall j :: 0 <= j < |sizes| ==> sizes[j] != ls) &&
     IsFirstLeast(sizes, ls, k) && sizes[k] <= Tolerance(ls))
  }

  /** Position of the first exact fit, searching from the head. */
  function FirstExact(sizes: seq<nat>, ls: nat): (r: Option<nat>)
    ensures r.Some? ==> r.value < |sizes| && sizes[r.value] == ls
  {
    if sizes == [] then None
    else if sizes[0] == ls then Some(0)
    else match FirstExact(sizes[1..], ls)
      case None => None
      case Some(k) => Some(k + 1)
  }

  /** Position of the least candidate, keeping the earlier one on ties, built
      up one block at a time as the scan sees them. */
  function Smallest(sizes: seq<nat>, ls: nat): (r: Option<nat>)
    ensures r.Some? ==> r.value < |sizes| && Candidate(sizes[r.value], ls)
  {
    if sizes == [] then None
    else
      var prefix := sizes[..|sizes| - 1];
      var es := sizes[|sizes| - 1];
      var best := Smallest(prefix, ls);
      if Candidate(es, ls) && (best.None? || es < prefix[best.value]) then Some(|sizes| - 1)
      else best
  }

  /** The decision best_fit makes over the free sizes. */
  function Choose(sizes: seq<nat>, ls: nat): (r: Option<nat>)
    ensures r.Some? ==> r.value < |sizes| && ls <= sizes[r.value]
  {
    match FirstExact(sizes, ls)
    case Some(k) => Some(k)
    case None =>
      match Smallest(sizes, ls)
      case None => None
      case Some(k) => if sizes[k] <= Tolerance(ls) then Some(k) else None
  }

  lemma {:induction false} FirstExactIsFirst(sizes: seq<nat>, ls: nat)
    ensures FirstExact(sizes, ls).None? <==> forall j :: 0 <= j < |sizes| ==> sizes[j] != ls
    ensures FirstExact(sizes, ls).Some? ==> IsFirstExact(sizes, ls, FirstExact(sizes, ls).value)
  {
    if sizes != [] && sizes[0] != ls {
      var tail := sizes[1..];
      FirstExactIsFirst(tail, ls);
      if FirstExact(tail, ls).None? {
        forall j | 0 <= j < |sizes| ensures sizes[j] != ls {
          if j > 0 { assert sizes[j] == tail[j - 1]; }
        }
      } else {
        var k := FirstExact(tail, ls).value;
        forall j | 0 <= j < k + 1 ensures sizes[j] != ls {
          if j > 0 { assert sizes[j] == tail[j - 1]; }
        }
      }
    }
  }

  lemma {:induction false} SmallestIsLeast(sizes: seq<nat>, ls: nat)
    ensures Smallest(sizes, ls).None? <==> forall j :: 0 <= j < |sizes| ==> !Candidate(sizes[j], ls)
    ensures Smallest(sizes, ls).Some? ==> IsFirstLeast(sizes, ls, Smallest(sizes, ls).value)
  {
    if sizes != [] {
      var n := |sizes| - 1;
      var prefix := sizes[..n];
      SmallestIsLeast(prefix, ls);
      assert forall j :: 0 <= j < n ==> sizes[j] == prefix[j];
    }
  }

  /** At most one position satisfies IsChoice. */
  lemma ChoiceIsUnique(sizes: seq<nat>, ls: nat, k1: nat, k2: nat)
    requires IsChoice(sizes, ls, k1) && IsChoice(sizes, ls, k2)
    ensures k1 == k2
  {
  }

  /** Choose returns exactly the position described by IsChoice, and nothing
      when no position qualifies. */
  lemma ChooseIsChoice(sizes: seq<nat>, ls: nat)
    ensures forall k: nat :: Choose(sizes, ls) == Some(k) <==> IsChoice(sizes, ls, k)
    ensures Choose(sizes, ls).None? <==> forall k: nat :: !IsChoice(sizes, ls, k)
  {
    FirstExactIsFirst(sizes, ls);
    SmallestIsLeast(sizes, ls);
    forall k: nat | IsChoice(sizes, ls, k) ensures Choose(sizes, ls) == Some(k) {
      if FirstExact(sizes, ls).Some? {
        ChoiceIsUnique(sizes, ls, k, FirstExact(sizes, ls).value);
      } else {
        ChoiceIsUnique(sizes, ls, k, Smallest(sizes, ls).value);
      }
    }
  }

  /** Below the wrap-around point the ceiling is 125% of the request, rounded down. */
  lemma ToleranceIsFiveQuarters(ls: nat)
    requires ls <= 0xCCCC_CCCC
    ensures Tolerance(ls) == ls + ls / 4 == 5 * ls / 4
  {
  }

  /** One step of the scan over the i-th free block, given no exact fit
      among the first i: an exact fit there is the first one, and otherwise
      the running least candidate is updated the way best_fit updates bf. */
  lemma ScanStep(sizes: seq<nat>, ls: nat, i: nat)
    requires i < |sizes| && FirstExact(sizes[..i], ls).None?
    ensures sizes[i] == ls ==> FirstExact(sizes, ls) == Some(i)
    ensures sizes[i] != ls ==> FirstExact(sizes[..i + 1], ls).None?
    ensures Smallest(sizes[..i + 1], ls) ==
      var best := Smallest(sizes[..i], ls);
      if Candidate(sizes[i], ls) && (best.None? || sizes[i] < sizes[best.value]) then Some(i) else best
  {
    var prefix := sizes[..i + 1];
    assert prefix[..i] == sizes[..i];
    FirstExactIsFirst(sizes[..i], ls);
    FirstExactIsFirst(prefix, ls);
    FirstExactIsFirst(sizes, ls);
    if sizes[i] == ls {
      ChoiceExactAt(sizes, ls, i);
    }
  }

  lemma ChoiceExactAt(sizes: seq<nat>, ls: nat, i: nat)
    requires IsFirstExact(sizes, ls, i)
    ensures FirstExact(sizes, ls) == Some(i)
  {
    FirstExactIsFirst(sizes, ls);
    if FirstExact(sizes, ls).Some? {
      var k := FirstExact(sizes, ls).value;
      assert IsFirstExact(sizes, ls, k);
    }
  }
}
