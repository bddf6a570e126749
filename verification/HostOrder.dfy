/** Comparing addresses with a port (`address_comparison`, `equivalent_to` and `less_than` of
    hostaddress.cpp). */
module HostOrder {

  datatype Host = NoHost | Ip(version: nat, words: seq<nat>) | Unknown {
    /** A host as the source can make it: four or eight words. */
    predicate Valid() {
      Ip? ==> (version == 4 && |words| == 4) || (version == 6 && |words| == 8)
    }

    /** Position in the source's variant. */
    function Index(): nat {
      match this
      case NoHost => 0
      case Ip(version, _) => if version == 4 then 1 else 2
      case Unknown => 3
    }

    /** The address that stands for every one of its family. */
    predicate IsAny() {
      Ip? && forall i :: 0 <= i < |words| ==> words[i] == 0
    }
  }

  datatype Address = Address(host: Host, port: nat)

  datatype Comparison = DifferentTypes | Same | LhsLess | RhsLess | LhsIsAny | RhsIsAny

  /** `std::array` is compared word by word. */
  predicate LexLess(a: seq<nat>, b: seq<nat>)
    requires |a| == |b|
    decreases |a|
  {
    a != [] && (a[0] < b[0] || (a[0] == b[0] && LexLess(a[1..], b[1..])))
  }

  function Compare(a: Host, b: Host): Comparison
    requires a.Valid() && b.Valid()
  {
    if a.Index() != b.Index() then DifferentTypes
    else if a == b then Same
    else if a.IsAny() then LhsIsAny
    else if b.IsAny() then RhsIsAny
    else if LexLess(a.words, b.words) then LhsLess
    else RhsLess
  }

  predicate EquivalentTo(a: Address, b: Address, anyIsEquivalent: bool)
    requires a.host.Valid() && b.host.Valid()
  {
    a.port == b.port
    && match Compare(a.host, b.host)
       case Same => true
       case LhsIsAny => anyIsEquivalent
       case RhsIsAny => anyIsEquivalent
       case _ => false
  }

  predicate LessThan(a: Address, b: Address, anyIsEquivalent: bool)
    requires a.host.Valid() && b.host.Valid()
  {
    match Compare(a.host, b.host)
    case DifferentTypes => a.host.Index() < b.host.Index()
    case LhsLess => true
    case RhsLess => false
    case RhsIsAny => anyIsEquivalent && a.port < b.port
    case LhsIsAny => !anyIsEquivalent || a.port < b.port
    case Same => a.port < b.port
  }

  // ---------------------------------------------------------------- the order of arrays

  lemma {:induction false} LexTotal(a: seq<nat>, b: seq<nat>)
    requires |a| == |b|
    ensures LexLess(a, b) || LexLess(b, a) || a == b
    ensures !(LexLess(a, b) && LexLess(b, a)) && (a == b ==> !LexLess(a, b))
    decreases |a|
  {
    if a != [] {
      LexTotal(a[1..], b[1..]);
      if a[0] == b[0] && a[1..] == b[1..] {
        assert a == [a[0]] + a[1..] == b;
      }
    }
  }

  lemma {:induction false} LexTransitive(a: seq<nat>, b: seq<nat>, c: seq<nat>)
    requires |a| == |b| == |c| && LexLess(a, b) && LexLess(b, c)
    ensures LexLess(a, c)
    decreases |a|
  {
    if a[0] == b[0] == c[0] {
      LexTransitive(a[1..], b[1..], c[1..]);
    }
  }

  lemma {:induction false} AnyIsLeast(a: seq<nat>, b: seq<nat>)
    requires |a| == |b| && a != b && forall i :: 0 <= i < |a| ==> a[i] == 0
    ensures LexLess(a, b)
    decreases |a|
  {
    if a != [] && b[0] == 0 {
      assert a == [a[0]] + a[1..] && b == [b[0]] + b[1..];
      AnyIsLeast(a[1..], b[1..]);
    }
  }

  // ---------------------------------------------------------------- the order of addresses

  /** Family first, then address, then port. */
  predicate Before(a: Address, b: Address)
    requires a.host.Valid() && b.host.Valid()
  {
    || a.host.Index() < b.host.Index()
    || (a.host.Index() == b.host.Index() && a.host != b.host && LexLess(a.host.words, b.host.words))
    || (a.host == b.host && a.port < b.port)
  }

  /** Without wildcards the case analysis is that order: an address of only zeros needs no case of
      its own. */
  lemma LessThanIsBefore(a: Address, b: Address)
    requires a.host.Valid() && b.host.Valid()
    ensures LessThan(a, b, false) == Before(a, b)
  {
    hide LexLess;
    if a.host.Ip? && a.host.Index() == b.host.Index() {
      LexTotal(a.host.words, b.host.words);
      if a.host != b.host && a.host.IsAny() {
        AnyIsLeast(a.host.words, b.host.words);
      } else if a.host != b.host && b.host.IsAny() {
        AnyIsLeast(b.host.words, a.host.words);
      }
    }
  }

  /** Without wildcards `less_than` is a strict total order of the addresses, and two of them are
      equivalent exactly when neither is less. */
  lemma StrictTotalOrder(a: Address, b: Address, c: Address)
    requires a.host.Valid() && b.host.Valid() && c.host.Valid()
    ensures !LessThan(a, a, false)
    ensures LessThan(a, b, false) && LessThan(b, c, false) ==> LessThan(a, c, false)
    ensures EquivalentTo(a, b, false) <==> !LessThan(a, b, false) && !LessThan(b, a, false)
    ensures EquivalentTo(a, b, false) <==> a == b
  {
    hide LexLess, Compare;
    LessThanIsBefore(a, a);
    LessThanIsBefore(a, b);
    LessThanIsBefore(b, a);
    LessThanIsBefore(b, c);
    LessThanIsBefore(a, c);
    EquivalentIsEqual(a, b);
    if a.host.Ip? && a.host.Index() == b.host.Index() {
      LexTotal(a.host.words, b.host.words);
      if b.host.Index() == c.host.Index() && LexLess(a.host.words, b.host.words) && LexLess(b.host.words, c.host.words) {
        LexTransitive(a.host.words, b.host.words, c.host.words);
        LexTotal(a.host.words, c.host.words);
      }
    }
  }

  lemma EquivalentIsEqual(a: Address, b: Address)
    requires a.host.Valid() && b.host.Valid()
    ensures EquivalentTo(a, b, false) <==> a == b
  {
    hide LexLess;
  }

  /** When two addresses are equivalent: the ports are equal, and so are the hosts, or, with wildcards,
      one of them is the wildcard of the other's family, on either side. */
  lemma EquivalentExactly(a: Address, b: Address, anyIsEquivalent: bool)
    requires a.host.Valid() && b.host.Valid()
    ensures EquivalentTo(a, b, anyIsEquivalent)
       <==> && a.port == b.port
            && (a.host == b.host || (anyIsEquivalent && a.host.Index() == b.host.Index() && (a.host.IsAny() || b.host.IsAny())))
    ensures EquivalentTo(a, b, anyIsEquivalent) == EquivalentTo(b, a, anyIsEquivalent)
  {
    hide LexLess;
  }

  /** There is one wildcard for each version of the protocol. */
  lemma WildcardIs(h: Host)
    requires h.Valid()
    ensures h.IsAny() <==> h == Ip(4, [0, 0, 0, 0]) || h == Ip(6, [0, 0, 0, 0, 0, 0, 0, 0])
  {
    if h.IsAny() {
      assert h.words == if h.version == 4 then [0, 0, 0, 0] else [0, 0, 0, 0, 0, 0, 0, 0];
    }
  }

  /** No address comes before those of version 4, these come before those of version 6, and hosts of an
      unknown kind come last, whatever the ports; none of them are equivalent to one another. */
  lemma KindsInOrder(none: Address, four: Address, six: Address, unknown: Address, any: bool)
    requires none.host.NoHost? && unknown.host.Unknown? && four.host.Ip? && six.host.Ip?
    requires four.host.version == 4 && |four.host.words| == 4 && six.host.version == 6 && |six.host.words| == 8
    ensures LessThan(none, four, any) && LessThan(four, six, any) && LessThan(six, unknown, any)
    ensures LessThan(none, six, any) && LessThan(four, unknown, any) && LessThan(none, unknown, any)
    ensures !LessThan(four, none, any) && !LessThan(six, four, any) && !LessThan(unknown, six, any)
    ensures !LessThan(six, none, any) && !LessThan(unknown, four, any) && !LessThan(unknown, none, any)
    ensures !EquivalentTo(four, six, any) && !EquivalentTo(none, unknown, any)
    ensures !EquivalentTo(none, four, any) && !EquivalentTo(none, six, any)
    ensures !EquivalentTo(four, unknown, any) && !EquivalentTo(six, unknown, any)
  {
    hide LexLess;
  }

  /** With wildcards an address is compared with the wildcard of its family by port, on either side, and
      otherwise as without. */
  lemma LessWithWildcards(a: Address, b: Address)
    requires a.host.Valid() && b.host.Valid()
    ensures LessThan(a, b, true) ==
            if a.host.Index() == b.host.Index() && (a.host.IsAny() || b.host.IsAny()) then a.port < b.port
            else Before(a, b)
  {
    LessThanIsBefore(a, b);
    hide LexLess;
    if a.host != b.host && a.host.Ip? && a.host.Index() == b.host.Index() {
      WildcardsMatterHere(a, b);
    }
  }

  lemma WildcardsMatterHere(a: Address, b: Address)
    requires a.host.Valid() && b.host.Valid() && a.host != b.host && a.host.Index() == b.host.Index()
    ensures LessThan(a, b, true) ==
            if a.host.IsAny() || b.host.IsAny() then a.port < b.port else LessThan(a, b, false)
  {
    hide LexLess;
  }

  /** Wildcards change nothing among addresses that are none. */
  lemma WildcardsMatterOnlyForAny(a: Address, b: Address)
    requires a.host.Valid() && b.host.Valid()
    requires a.host == b.host || !(a.host.IsAny() || b.host.IsAny())
    ensures LessThan(a, b, true) == LessThan(a, b, false)
    ensures EquivalentTo(a, b, true) == EquivalentTo(a, b, false)
  {
    hide LexLess;
  }

  /** With wildcards two addresses of a family and the wildcard of that family go round in a
      circle exactly when the wildcard's port lies strictly between their ports, in the order
      opposite to theirs. */
  lemma CircleExactly(a: Address, any: Address, b: Address)
    requires a.host.Valid() && any.host.Valid() && b.host.Valid()
    requires a.host.Index() == b.host.Index() == any.host.Index() && any.host.IsAny()
    requires !a.host.IsAny() && !b.host.IsAny()
    ensures LessThan(a, any, true) && LessThan(any, b, true) && LessThan(b, a, true)
       <==> a.port < any.port < b.port && b.host != a.host && LexLess(b.host.words, a.host.words)
  {
    hide LexLess;
  }

  /** Such a circle: 1.0.0.0 and 2.0.0.0 with the wildcard between them. */
  lemma WildcardsMakeCircles()
    ensures var a, any, b := Address(Ip(4, [2, 0, 0, 0]), 1), Address(Ip(4, [0, 0, 0, 0]), 2),
                             Address(Ip(4, [1, 0, 0, 0]), 3);
            LessThan(a, any, true) && LessThan(any, b, true) && LessThan(b, a, true)
  {
    var a, any, b := Address(Ip(4, [2, 0, 0, 0]), 1), Address(Ip(4, [0, 0, 0, 0]), 2), Address(Ip(4, [1, 0, 0, 0]), 3);
    assert a.host.words[0] == 2 && b.host.words[0] == 1;
    CircleExactly(a, any, b);
  }

  /** Where the order breaks: one of three addresses of a family is its wildcard, which is compared
      by port only, and the other two, which are compared by address, are the other way round. */
  predicate Breaks(a: Address, b: Address, c: Address)
    requires a.host.Valid() && b.host.Valid() && c.host.Valid()
  {
    && a.host.Index() == b.host.Index() == c.host.Index()
    && if a.host.IsAny() then !b.host.IsAny() && !c.host.IsAny() && b.host != c.host && c.port <= a.port
       else if b.host.IsAny() then !c.host.IsAny() && c.host != a.host && LexLess(c.host.words, a.host.words)
       else c.host.IsAny() && a.host != b.host && c.port <= a.port
  }

  /** With wildcards `less_than` is transitive exactly where the order does not break. */
  lemma TransitiveExactly(a: Address, b: Address, c: Address)
    requires a.host.Valid() && b.host.Valid() && c.host.Valid()
    requires LessThan(a, b, true) && LessThan(b, c, true)
    ensures LessThan(a, c, true) <==> !Breaks(a, b, c)
  {
    hide LexLess;
    if a.host.Index() == b.host.Index() == c.host.Index() && a.host.Ip? {
      AnyIsOne(a.host, b.host);
      AnyIsOne(b.host, c.host);
      AnyIsOne(a.host, c.host);
      LexTotal(a.host.words, b.host.words);
      LexTotal(b.host.words, c.host.words);
      LexTotal(a.host.words, c.host.words);
      if LexLess(a.host.words, b.host.words) && LexLess(b.host.words, c.host.words) {
        LexTransitive(a.host.words, b.host.words, c.host.words);
      }
    }
  }

  /** A family has one wildcard. */
  lemma AnyIsOne(a: Host, b: Host)
    requires a.Valid() && b.Valid() && a.Index() == b.Index() && a.Ip?
    ensures b.Ip? && |a.words| == |b.words|
    ensures a.IsAny() && b.IsAny() ==> a == b
  {
    if a.IsAny() && b.IsAny() {
      assert a.words == b.words;
    }
  }

  /** It breaks without a circle too: 0.0.0.0:1 is less than 1.0.0.0:2, and that less than
      2.0.0.0:1, which is equivalent to the first. */
  lemma EquivalentAtBothEnds()
    ensures var any, b, c := Address(Ip(4, [0, 0, 0, 0]), 1), Address(Ip(4, [1, 0, 0, 0]), 2),
                             Address(Ip(4, [2, 0, 0, 0]), 1);
            && LessThan(any, b, true) && LessThan(b, c, true)
            && !LessThan(any, c, true) && EquivalentTo(any, c, true)
  {
    assert [1, 0, 0, 0][0] == 1 && [2, 0, 0, 0][0] == 2;
  }
}
