/** Names in the order of Go's sort.Strings. */
module Ordering {
  /** The order of sort.Strings: by the first character that differs. */
  predicate Before(a: string, b: string) {
    b != "" && (a == "" || a[0] < b[0] || (a[0] == b[0] && Before(a[1..], b[1..])))
  }

  lemma {:induction false} BeforeTotal(a: string, b: string)
    ensures a == b || Before(a, b) || Before(b, a)
    ensures !(Before(a, b) && Before(b, a)) && !Before(a, a)
  {
    if a != "" {
      BeforeTotal(a[1..], if b == "" then "" else b[1..]);
      if b != "" {
        assert a == [a[0]] + a[1..] && b == [b[0]] + b[1..];
      }
    }
  }

  lemma {:induction false} BeforeTransitive(a: string, b: string, c: string)
    requires Before(a, b) && Before(b, c)
    ensures Before(a, c)
  {
    if a != "" && a[0] == b[0] == c[0] {
      BeforeTransitive(a[1..], b[1..], c[1..]);
    }
  }

  predicate IsFirst(m: string, names: set<string>) {
    m in names && forall x :: x in names && x != m ==> Before(m, x)
  }

  lemma {:induction false} FirstExists(names: set<string>) returns (m: string)
    requires names != {}
    ensures IsFirst(m, names)
    decreases |names|
  {
    var x :| x in names;
    m := x;
    var others := names - {x};
    if others != {} {
      var y := FirstExists(others);
      BeforeTotal(x, y);
      if Before(y, x) {
        m := y;
      } else {
        forall z | z in names && z != x
          ensures Before(x, z)
        {
          if z != y {
            BeforeTransitive(x, y, z);
          }
        }
      }
    }
  }

  lemma HasFirst(names: set<string>)
    requires names != {}
    ensures exists m :: IsFirst(m, names)
  {
    var m := FirstExists(names);
  }

  /** The names in order. */
  ghost function Sorted(names: set<string>): seq<string>
    decreases |names|
  {
    if names == {} then []
    else
      HasFirst(names);
      var m :| IsFirst(m, names);
      [m] + Sorted(names - {m})
  }

  lemma SortedFirst(m: string, names: set<string>)
    requires IsFirst(m, names)
    ensures Sorted(names) == [m] + Sorted(names - {m})
  {
    forall x | IsFirst(x, names)
      ensures x == m
    {
      BeforeTotal(x, m);
    }
  }

  lemma {:induction false} SortedElements(names: set<string>)
    ensures forall x :: x in Sorted(names) <==> x in names
    decreases |names|
  {
    if names != {} {
      var m := FirstExists(names);
      SortedFirst(m, names);
      SortedElements(names - {m});
    }
  }

  lemma {:induction false} SortedDistinct(names: set<string>)
    ensures forall i, j :: 0 <= i < j < |Sorted(names)| ==> Sorted(names)[i] != Sorted(names)[j]
    decreases |names|
  {
    if names != {} {
      var m := FirstExists(names);
      SortedFirst(m, names);
      SortedDistinct(names - {m});
      SortedElements(names - {m});
      forall j | 0 < j < |Sorted(names)|
        ensures Sorted(names)[j] != m
      {
        assert Sorted(names)[j] == Sorted(names - {m})[j - 1];
        assert Sorted(names)[j] in Sorted(names - {m});
      }
    }
  }

  function Insert(x: string, names: seq<string>): seq<string> {
    if names == [] || Before(x, names[0]) then [x] + names else [names[0]] + Insert(x, names[1..])
  }

  /** Inserting a name that comes before all others puts it first. */
  lemma InsertFirst(x: string, names: set<string>, m: string)
    requires x !in names && IsFirst(m, names) && Before(x, m)
    ensures Insert(x, Sorted(names)) == Sorted(names + {x})
  {
    SortedFirst(m, names);
    forall z | z in names
      ensures Before(x, z)
    {
      if z != m {
        BeforeTransitive(x, m, z);
      }
    }
    SortedFirst(x, names + {x});
    assert names + {x} - {x} == names;
  }

  lemma InsertSkips(x: string, m: string, rest: seq<string>)
    requires !Before(x, m)
    ensures Insert(x, [m] + rest) == [m] + Insert(x, rest)
  {
    assert ([m] + rest)[1..] == rest;
  }

  /** A first name stays the first of what is sorted. */
  lemma SortedWith(m: string, rest: set<string>, all: set<string>)
    requires m !in rest && all == rest + {m}
    requires forall z :: z in rest ==> Before(m, z)
    ensures Sorted(all) == [m] + Sorted(rest)
  {
    SortedFirst(m, all);
    assert all - {m} == rest;
  }

  lemma InsertLater(x: string, names: set<string>, m: string)
    requires x !in names && IsFirst(m, names) && Before(m, x)
    requires Insert(x, Sorted(names - {m})) == Sorted(names - {m} + {x})
    ensures Insert(x, Sorted(names)) == Sorted(names + {x})
  {
    var rest := names - {m};
    SortedWith(m, rest, names);
    SortedWith(m, rest + {x}, names + {x});
    BeforeTotal(x, m);
    InsertSkips(x, m, Sorted(rest));
  }

  lemma {:induction false} InsertSorted(x: string, names: set<string>)
    requires x !in names
    ensures Insert(x, Sorted(names)) == Sorted(names + {x})
    decreases |names|
  {
    if names == {} {
      SortedFirst(x, names + {x});
      assert names + {x} - {x} == names;
    } else {
      var m := FirstExists(names);
      BeforeTotal(x, m);
      if Before(x, m) {
        InsertFirst(x, names, m);
      } else {
        InsertSorted(x, names - {m});
        InsertLater(x, names, m);
      }
    }
  }

  function Elements(names: seq<string>): set<string> {
    set x | x in names
  }

  lemma ElementsTo(names: seq<string>, i: nat)
    requires i < |names|
    ensures Elements(names[..i + 1]) == Elements(names[..i]) + {names[i]}
  {
    assert names[..i + 1] == names[..i] + [names[i]];
  }

  /** sort.Strings on distinct names. */
  method SortStrings(names: seq<string>) returns (r: seq<string>)
    requires forall i, j :: 0 <= i < j < |names| ==> names[i] != names[j]
    ensures r == Sorted(Elements(names))
  {
    r := [];
    for i := 0 to |names|
      invariant r == Sorted(Elements(names[..i]))
    {
      InsertSorted(names[i], Elements(names[..i]));
      ElementsTo(names, i);
      r := Insert(names[i], r);
    }
    assert names[..|names|] == names;
  }

  /** Sorted names ascend. */
  lemma {:induction false} SortedAscend(names: set<string>)
    ensures forall i, j :: 0 <= i < j < |Sorted(names)| ==> Before(Sorted(names)[i], Sorted(names)[j])
    decreases names
  {
    if names != {} {
      var m := FirstExists(names);
      SortedFirst(m, names);
      SortedAscend(names - {m});
      SortedElements(names - {m});
      var rest := Sorted(names - {m});
      forall i, j | 0 <= i < j < |Sorted(names)|
        ensures Before(Sorted(names)[i], Sorted(names)[j])
      {
        assert Sorted(names)[j] == rest[j - 1] && rest[j - 1] in rest;
        if i == 0 {
          assert rest[j - 1] in names && rest[j - 1] != m;
        } else {
          assert Sorted(names)[i] == rest[i - 1];
        }
      }
    }
  }
}
