/** The lexicographic order on strings, and finite sets of strings in that order. */
module Ordering {

  predicate Less(a: string, b: string) {
    if b == [] then false
    else if a == [] then true
    else a[0] < b[0] || (a[0] == b[0] && Less(a[1..], b[1..]))
  }

  lemma LessIsTotal(a: string, b: string)
    ensures a == b || Less(a, b) || Less(b, a)
    ensures !(Less(a, b) && Less(b, a))
    ensures !Less(a, a)
  {
    if a != [] && b != [] && a[0] == b[0] {
      LessIsTotal(a[1..], b[1..]);
      assert a == [a[0]] + a[1..] && b == [b[0]] + b[1..];
    }
    LessIsIrreflexive(a);
  }

  lemma LessIsIrreflexive(a: string)
    ensures !Less(a, a)
  {
    if a != [] {
      LessIsIrreflexive(a[1..]);
    }
  }

  lemma LessIsTransitive(a: string, b: string, c: string)
    requires Less(a, b) && Less(b, c)
    ensures Less(a, c)
  {
    if a != [] && b != [] && c != [] && a[0] == b[0] == c[0] {
      LessIsTransitive(a[1..], b[1..], c[1..]);
    }
  }

  predicate IsLeast(names: set<string>, least: string) {
    least in names && forall name :: name in names ==> name == least || Less(least, name)
  }

  lemma LeastExists(names: set<string>) returns (least: string)
    requires names != {}
    ensures IsLeast(names, least)
  {
    var some :| some in names;
    if names == {some} {
      least := some;
    } else {
      var rest := names - {some};
      assert names == rest + {some};
      var candidate := LeastExists(rest);
      LessIsTotal(candidate, some);
      least := if Less(some, candidate) then some else candidate;
      forall name | name in names ensures name == least || Less(least, name) {
        if name in rest && name != candidate && least == some {
          LessIsTransitive(some, candidate, name);
        }
      }
    }
  }

  lemma OneLeast(names: set<string>)
    requires names != {}
    ensures exists least :: IsLeast(names, least)
    ensures forall a, b :: IsLeast(names, a) && IsLeast(names, b) ==> a == b
  {
    var least := LeastExists(names);
    forall a, b | IsLeast(names, a) && IsLeast(names, b) ensures a == b {
      LessIsTotal(a, b);
    }
  }

  predicate Increasing(names: seq<string>) {
    forall i, j :: 0 <= i < j < |names| ==> Less(names[i], names[j])
  }

  /** The names in increasing order. */
  function Sorted(names: set<string>): (sorted: seq<string>)
    ensures forall name :: name in sorted <==> name in names
    ensures Increasing(sorted)
  {
    if names == {} then []
    else
      OneLeast(names);
      var least :| IsLeast(names, least);
      [least] + Sorted(names - {least})
  }
}
