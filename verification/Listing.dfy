/** Sorted directory listings: the names of a directory in increasing order, each once. */
module Listing {
  import opened Paths

  /** Go's string order. */
  predicate Less(a: Name, b: Name) {
    if b == [] then false
    else if a == [] then true
    else a[0] < b[0] || (a[0] == b[0] && Less(a[1..], b[1..]))
  }

  /** The names agree before position k, where a ends or has the smaller character. */
  ghost predicate SmallerAt(a: Name, b: Name, k: nat) {
    k <= |a| && k < |b| && a[..k] == b[..k] && (k == |a| || a[k] < b[k])
  }

  lemma StartDecides(a: Name, b: Name, k: nat)
    ensures SmallerAt(a, b, k) && (a == [] || b == [] || a[0] != b[0]) ==> k == 0
  {
    if 0 < k <= |a| && k <= |b| {
      assert a[..k][0] == a[0] && b[..k][0] == b[0];
    }
  }

  /** The order is that of the first difference, and a name comes before its extensions. */
  lemma {:induction false} LessMeans(a: Name, b: Name)
    ensures Less(a, b) <==> exists k: nat :: SmallerAt(a, b, k)
    decreases |a|
  {
    if a == [] || b == [] || a[0] != b[0] {
      assert Less(a, b) ==> SmallerAt(a, b, 0);
      forall k: nat | SmallerAt(a, b, k) ensures k == 0 { StartDecides(a, b, k); }
    } else {
      LessMeans(a[1..], b[1..]);
      assert a == [a[0]] + a[1..] && b == [b[0]] + b[1..];
      forall k: nat ensures SmallerAt(a[1..], b[1..], k) <==> SmallerAt(a, b, k + 1) {
        assert k <= |a[1..]| ==> a[..k + 1] == [a[0]] + a[1..][..k];
        assert k <= |b[1..]| ==> b[..k + 1] == [b[0]] + b[1..][..k];
        assert k + 1 <= |a| && k + 1 <= |b| ==> a[1..][..k] == a[..k + 1][1..] && b[1..][..k] == b[..k + 1][1..];
      }
      assert !SmallerAt(a, b, 0);
      if Less(a, b) {
        var k: nat :| SmallerAt(a[1..], b[1..], k);
        assert SmallerAt(a, b, k + 1);
      }
      if k: nat :| SmallerAt(a, b, k) { assert SmallerAt(a[1..], b[1..], k - 1); }
    }
  }

  lemma {:induction false} LessTrans(a: Name, b: Name, c: Name)
    requires Less(a, b) && Less(b, c)
    ensures Less(a, c)
    decreases |a|
  {
    if a != [] && a[0] == b[0] && b[0] == c[0] {
      LessTrans(a[1..], b[1..], c[1..]);
    }
  }

  lemma {:induction false} LessTotal(a: Name, b: Name)
    ensures Less(a, b) || Less(b, a) || a == b
    ensures !(Less(a, b) && Less(b, a)) && !Less(a, a)
    decreases |a|
  {
    if a != [] {
      LessTotal(a[1..], a[1..]);
      if b != [] {
        LessTotal(a[1..], b[1..]);
        assert a == [a[0]] + a[1..] && b == [b[0]] + b[1..];
      }
    }
  }

  predicate Increasing(r: seq<Name>) {
    forall i, j | 0 <= i < j < |r| :: Less(r[i], r[j])
  }

  ghost predicate IsListing(r: seq<Name>, names: set<Name>) {
    Increasing(r) && forall n :: n in r <==> n in names
  }

  // A set of names has exactly one listing.
  lemma {:induction false} ListingIsUnique(a: seq<Name>, b: seq<Name>, names: set<Name>)
    requires IsListing(a, names) && IsListing(b, names)
    ensures a == b
    decreases |a|
  {
    FirstIsListed(a, names);
    FirstIsListed(b, names);
    if a != [] {
      assert a[0] in b && b != [];
      assert b[0] in a;
      LessTotal(a[0], b[0]);
      var i :| 0 <= i < |a| && a[i] == b[0];
      var j :| 0 <= j < |b| && b[j] == a[0];
      assert a[0] == b[0];
      Tail(a, names);
      Tail(b, names);
      ListingIsUnique(a[1..], b[1..], names - {a[0]});
      assert a == [a[0]] + a[1..] && b == [b[0]] + b[1..];
    }
  }

  lemma FirstIsListed(a: seq<Name>, names: set<Name>)
    requires IsListing(a, names)
    ensures a != [] ==> a[0] in names
  {
  }

  lemma Tail(a: seq<Name>, names: set<Name>)
    requires a != [] && IsListing(a, names)
    ensures IsListing(a[1..], names - {a[0]})
  {
    forall n ensures n in a[1..] <==> n in names - {a[0]} {
      if n in a[1..] {
        var i :| 0 <= i < |a| - 1 && a[1..][i] == n;
        assert a[i + 1] == n;
        LessTotal(a[0], n);
      }
      if n in names && n != a[0] {
        var i :| 0 <= i < |a| && a[i] == n;
        assert a[1..][i - 1] == n;
      }
    }
  }

  /** slices.Sort on the names of a map, by insertion. */
  method Sort(names: set<Name>) returns (r: seq<Name>)
    ensures IsListing(r, names)
  {
    r := [];
    var todo := names;
    while todo != {}
      invariant todo <= names && IsListing(r, names - todo)
      decreases |todo|
    {
      var n :| n in todo;
      r := Insert(r, n, names - todo);
      todo := todo - {n};
      assert names - todo == names - (todo + {n}) + {n};
    }
  }

  method Insert(r: seq<Name>, n: Name, ghost names: set<Name>) returns (out: seq<Name>)
    requires IsListing(r, names) && n !in names
    ensures IsListing(out, names + {n})
  {
    var i := 0;
    while i < |r| && Less(r[i], n)
      invariant 0 <= i <= |r| && forall j | 0 <= j < i :: Less(r[j], n)
    {
      i := i + 1;
    }
    out := r[..i] + [n] + r[i..];
    forall j | i <= j < |r| ensures Less(n, r[j]) {
      LessTotal(r[i], n);
      assert r[i] in names;
      if i < j { LessTrans(n, r[i], r[j]); }
    }
    forall j, k | 0 <= j < k < |out| ensures Less(out[j], out[k]) {
      if j < i < k { LessTrans(r[j], n, r[k - 1]); }
    }
    forall m ensures m in out <==> m in names + {n} {
      assert m in r <==> m in r[..i] || m in r[i..] by { assert r == r[..i] + r[i..]; }
    }
  }
}
