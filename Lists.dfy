/** Sequence operations that stand for the java.util.List calls the Jackut code
    makes on its ArrayLists of logins and community names, and the "{a,b,c}"
    formatting used by every listing operation. */
module Lists {

  /** No element occurs twice. */
  ghost predicate NoDup<T>(xs: seq<T>) {
    forall i, j :: 0 <= i < j < |xs| ==> xs[i] != xs[j]
  }

  /** List.remove(Object): drops the first occurrence of x, if any. */
  function RemoveFirst<T(==)>(xs: seq<T>, x: T): (r: seq<T>)
    ensures x !in xs ==> r == xs
    ensures |r| == if x in xs then |xs| - 1 else |xs|
  {
    if xs == [] then []
    else if xs[0] == x then xs[1..]
    else [xs[0]] + RemoveFirst(xs[1..], x)
  }

  /** As a bag, removing the first occurrence takes away one x, if any. */
  lemma {:induction false} RemoveFirstMultiset<T>(xs: seq<T>, x: T)
    ensures multiset(RemoveFirst(xs, x)) == multiset(xs) - multiset{x}
  {
    if xs != [] {
      assert xs == [xs[0]] + xs[1..];
      if xs[0] != x {
        RemoveFirstMultiset(xs[1..], x);
      }
    }
  }

  lemma NoDupTail<T>(xs: seq<T>)
    requires NoDup(xs) && xs != []
    ensures NoDup(xs[1..]) && xs[0] !in xs[1..]
  {
    forall i, j | 0 <= i < j < |xs[1..]| ensures xs[1..][i] != xs[1..][j] {
      assert xs[1..][i] == xs[i + 1] && xs[1..][j] == xs[j + 1];
    }
    forall k | 0 <= k < |xs[1..]| ensures xs[1..][k] != xs[0] {
      assert xs[1..][k] == xs[k + 1];
    }
  }

  lemma NoDupCons<T>(x: T, xs: seq<T>)
    requires NoDup(xs) && x !in xs
    ensures NoDup([x] + xs)
  {
    forall i, j | 0 <= i < j < |[x] + xs| ensures ([x] + xs)[i] != ([x] + xs)[j] {
      if i > 0 { assert ([x] + xs)[i] == xs[i - 1]; }
      assert ([x] + xs)[j] == xs[j - 1];
    }
  }

  /** Removing x keeps every other element, and on a duplicate-free list it
      removes x altogether and keeps the list duplicate-free. */
  lemma {:induction false} RemoveFirstFacts<T>(xs: seq<T>, x: T)
    ensures forall y :: y != x ==> (y in RemoveFirst(xs, x) <==> y in xs)
    ensures NoDup(xs) ==> NoDup(RemoveFirst(xs, x)) && x !in RemoveFirst(xs, x)
  {
    if xs != [] {
      var r := RemoveFirst(xs, x);
      assert xs == [xs[0]] + xs[1..];
      if xs[0] != x {
        RemoveFirstFacts(xs[1..], x);
        assert r == [xs[0]] + RemoveFirst(xs[1..], x);
        if NoDup(xs) {
          NoDupTail(xs);
          NoDupCons(xs[0], RemoveFirst(xs[1..], x));
        }
      } else if NoDup(xs) {
        NoDupTail(xs);
      }
    }
  }

  /** When the first occurrence of x starts the suffix, only that one goes. */
  lemma {:induction false} RemoveFirstAfterPrefix<T>(p: seq<T>, s: seq<T>)
    requires s != [] && s[0] !in p
    ensures RemoveFirst(p + s, s[0]) == p + s[1..]
  {
    if p == [] {
      assert p + s == s;
    } else {
      assert (p + s)[0] == p[0] && (p + s)[1..] == p[1..] + s;
      RemoveFirstAfterPrefix(p[1..], s);
      assert [p[0]] + (p[1..] + s[1..]) == p + s[1..];
    }
  }

  /** Appending an absent element keeps a list duplicate-free. */
  lemma NoDupSnoc<T>(xs: seq<T>, x: T)
    requires NoDup(xs) && x !in xs
    ensures NoDup(xs + [x])
  {
  }

  /** The "add only when absent" idiom: `if (!l.contains(x)) l.add(x)`. */
  function AppendIfAbsent<T(==, !new)>(xs: seq<T>, x: T): (r: seq<T>)
    ensures x in r
    ensures forall y :: y in r <==> y in xs || y == x
    ensures |xs| <= |r| <= |xs| + 1 && r[..|xs|] == xs
    ensures NoDup(xs) ==> NoDup(r)
  {
    if x in xs then xs else xs + [x]
  }

  /** The elements of xs that are not in drop, in their original order. */
  function Keep<T(==, !new)>(xs: seq<T>, drop: seq<T>): (r: seq<T>)
    ensures forall y :: y in r <==> y in xs && y !in drop
    ensures |r| <= |xs|
  {
    if xs == [] then []
    else if xs[0] in drop then Keep(xs[1..], drop)
    else [xs[0]] + Keep(xs[1..], drop)
  }

  /** The loop `for (c : copyOfToCheck) if (drop.contains(c)) current.remove(c);`. */
  function RemoveEach<T(==, !new)>(current: seq<T>, toCheck: seq<T>, drop: seq<T>): seq<T>
    decreases |toCheck|
  {
    if toCheck == [] then current
    else if toCheck[0] in drop then RemoveEach(RemoveFirst(current, toCheck[0]), toCheck[1..], drop)
    else RemoveEach(current, toCheck[1..], drop)
  }

  /** Removing, one at a time, each element of a list's own copy that lies in
      `drop` removes every occurrence of those elements, and nothing else. */
  lemma {:induction false} RemoveEachOfSelf<T(!new)>(xs: seq<T>, drop: seq<T>)
    ensures RemoveEach(xs, xs, drop) == Keep(xs, drop)
  {
    RemoveEachAfterKept([], xs, drop);
    assert [] + xs == xs;
  }

  lemma {:induction false} RemoveEachAfterKept<T(!new)>(kept: seq<T>, s: seq<T>, drop: seq<T>)
    requires forall k :: k in kept ==> k !in drop
    ensures RemoveEach(kept + s, s, drop) == kept + Keep(s, drop)
    decreases |s|
  {
    if s == [] {
      assert kept + s == kept;
    } else if s[0] in drop {
      RemoveFirstAfterPrefix(kept, s);
      assert RemoveEach(kept + s, s, drop) == RemoveEach(kept + s[1..], s[1..], drop);
      RemoveEachAfterKept(kept, s[1..], drop);
      assert Keep(s, drop) == Keep(s[1..], drop);
    } else {
      assert kept + s == (kept + [s[0]]) + s[1..];
      RemoveEachAfterKept(kept + [s[0]], s[1..], drop);
      assert (kept + [s[0]]) + Keep(s[1..], drop) == kept + ([s[0]] + Keep(s[1..], drop));
    }
  }

  /** Insertion into a LinkedHashSet, one element after the other: the first
      occurrence of each element, in order. */
  function Distinct<T(==, !new)>(xs: seq<T>): (r: seq<T>)
    ensures NoDup(r)
    ensures forall y :: y in r <==> y in xs
  {
    if xs == [] then [] else AppendIfAbsent(Distinct(xs[..|xs| - 1]), xs[|xs| - 1])
  }

  /** A list without duplicates goes through a LinkedHashSet unchanged. */
  lemma {:induction false} DistinctOfNoDup<T(!new)>(xs: seq<T>)
    requires NoDup(xs)
    ensures Distinct(xs) == xs
  {
    if xs != [] {
      var init := xs[..|xs| - 1];
      assert NoDup(init);
      DistinctOfNoDup(init);
      assert xs[|xs| - 1] !in init;
      assert init + [xs[|xs| - 1]] == xs;
    }
  }

  /** String.join(sep, xs). */
  function Join(sep: string, xs: seq<string>): string
  {
    if xs == [] then ""
    else if |xs| == 1 then xs[0]
    else xs[0] + sep + Join(sep, xs[1..])
  }

  /** The listing format used throughout Jackut: "{" + String.join(",", xs) + "}". */
  function FormatList(xs: seq<string>): (r: string)
    ensures |r| >= 2 && r[0] == '{' && r[|r| - 1] == '}'
    ensures r[1..|r| - 1] == Join(",", xs)
  {
    "{" + Join(",", xs) + "}"
  }

  /** Splits s at every occurrence of sep (keeping empty pieces). */
  function Split(s: string, sep: char): (r: seq<string>)
    ensures |r| >= 1
  {
    if s == [] then [""]
    else if s[0] == sep then [""] + Split(s[1..], sep)
    else
      var rest := Split(s[1..], sep);
      [[s[0]] + rest[0]] + rest[1..]
  }

  /** Reads a formatted listing back: the inverse of FormatList. */
  function ParseList(s: string): seq<string>
  {
    if |s| < 2 || s[0] != '{' || s[|s| - 1] != '}' then []
    else if s == "{}" then []
    else Split(s[1..|s| - 1], ',')
  }

  lemma {:induction false} SplitPlain(e: string, sep: char)
    requires sep !in e
    ensures Split(e, sep) == [e]
  {
    if e != [] {
      SplitPlain(e[1..], sep);
      assert [e[0]] + e[1..] == e;
    }
  }

  lemma {:induction false} SplitAfterPiece(e: string, sep: char, t: string)
    requires sep !in e
    ensures Split(e + [sep] + t, sep) == [e] + Split(t, sep)
  {
    if e == [] {
      assert e + [sep] + t == [sep] + t;
      assert ([sep] + t)[1..] == t;
    } else {
      var s := e + [sep] + t;
      assert s[0] == e[0] && s[1..] == e[1..] + [sep] + t;
      SplitAfterPiece(e[1..], sep, t);
      assert [e[0]] + e[1..] == e;
    }
  }

  lemma {:induction false} SplitJoin(xs: seq<string>)
    requires xs != []
    requires forall e :: e in xs ==> ',' !in e
    ensures Split(Join(",", xs), ',') == xs
  {
    if |xs| == 1 {
      SplitPlain(xs[0], ',');
    } else {
      SplitJoin(xs[1..]);
      SplitAfterPiece(xs[0], ',', Join(",", xs[1..]));
      assert [xs[0]] + xs[1..] == xs;
    }
  }

  /** Round trip: a listing of comma-free, non-empty names reads back as the
      same names in the same order. */
  lemma ParseFormat(xs: seq<string>)
    requires forall e :: e in xs ==> e != "" && ',' !in e
    ensures ParseList(FormatList(xs)) == xs
  {
    var s := FormatList(xs);
    if xs == [] {
      assert s == "{}";
    } else {
      assert s[1..|s| - 1] == Join(",", xs);
      assert s != "{}" by {
        assert xs[0] in xs;
        if |xs| == 1 { assert Join(",", xs) == xs[0]; }
        else { assert |Join(",", xs)| >= 1 by { assert Join(",", xs) == xs[0] + "," + Join(",", xs[1..]); } }
      }
      SplitJoin(xs);
    }
  }

  /** FormatList is injective on comma-free, non-empty names. */
  lemma FormatListInjective(xs: seq<string>, ys: seq<string>)
    requires forall e :: e in xs ==> e != "" && ',' !in e
    requires forall e :: e in ys ==> e != "" && ',' !in e
    requires FormatList(xs) == FormatList(ys)
    ensures xs == ys
  {
    ParseFormat(xs);
    ParseFormat(ys);
  }
}
