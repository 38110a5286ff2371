// strcmp and the order on contacts, shared by the tree and the list.

module NameOrder {
  import opened Base

  // The sign of strcmp on strings without NUL.
  function StrCmp(a: Bytes, b: Bytes): (r: int)
    ensures r == 0 <==> a == b
    ensures -1 <= r <= 1
  {
    if a == [] then (if b == [] then 0 else -1)
    else if b == [] then 1
    else if a[0] != b[0] then (if a[0] < b[0] then -1 else 1)
    else
      assert a == [a[0]] + a[1..] && b == [b[0]] + b[1..];
      StrCmp(a[1..], b[1..])
  }

  lemma {:induction false} StrCmpSwap(a: Bytes, b: Bytes)
    ensures StrCmp(b, a) == -StrCmp(a, b)
  {
    if a != [] && b != [] && a[0] == b[0] { StrCmpSwap(a[1..], b[1..]); }
  }

  lemma {:induction false} StrCmpTransitive(a: Bytes, b: Bytes, c: Bytes)
    requires StrCmp(a, b) <= 0 && StrCmp(b, c) <= 0
    ensures StrCmp(a, c) <= 0
    ensures StrCmp(a, b) < 0 || StrCmp(b, c) < 0 ==> StrCmp(a, c) < 0
  {
    if a != [] && b != [] && c != [] && a[0] == b[0] == c[0] { StrCmpTransitive(a[1..], b[1..], c[1..]); }
  }

  // The first byte that differs decides, the smaller byte coming first, and a word
  // comes before its continuations.
  lemma {:induction false} FirstDifferenceDecides(p: Bytes, x: Byte, y: Byte, s: Bytes, t: Bytes)
    requires x < y
    ensures StrCmp(p + [x] + s, p + [y] + t) < 0 && StrCmp(p + [y] + t, p + [x] + s) > 0
  {
    var a, b := p + [x] + s, p + [y] + t;
    StrCmpSwap(a, b);
    if p != [] {
      assert a[1..] == p[1..] + [x] + s && b[1..] == p[1..] + [y] + t;
      FirstDifferenceDecides(p[1..], x, y, s, t);
    }
  }

  lemma {:induction false} ShorterFirst(p: Bytes, s: Bytes)
    requires s != []
    ensures StrCmp(p, p + s) < 0 && StrCmp(p + s, p) > 0
  {
    StrCmpSwap(p, p + s);
    if p != [] {
      assert (p + s)[1..] == p[1..] + s;
      ShorterFirst(p[1..], s);
    }
  }

  datatype Contact = Contact(lastName: Bytes, firstName: Bytes)

  function Compare(a: Contact, b: Contact): (r: int)
    ensures r == 0 <==> a == b
  {
    var res := StrCmp(a.lastName, b.lastName);
    if res == 0 then StrCmp(a.firstName, b.firstName) else res
  }

  // Contacts are ordered by last name; first names decide between equal last names.
  lemma LastNamesDecide(a: Contact, b: Contact)
    ensures StrCmp(a.lastName, b.lastName) < 0 ==> Compare(a, b) < 0 && Compare(b, a) > 0
    ensures a.lastName == b.lastName && StrCmp(a.firstName, b.firstName) < 0 ==> Compare(a, b) < 0 && Compare(b, a) > 0
  {
    StrCmpSwap(a.lastName, b.lastName);
    StrCmpSwap(a.firstName, b.firstName);
  }

  lemma CompareSwap(a: Contact, b: Contact)
    ensures Compare(b, a) == -Compare(a, b)
  {
    StrCmpSwap(a.lastName, b.lastName);
    StrCmpSwap(a.firstName, b.firstName);
  }

  lemma CompareTransitive(a: Contact, b: Contact, c: Contact)
    requires Compare(a, b) <= 0 && Compare(b, c) <= 0
    ensures Compare(a, c) <= 0
    ensures Compare(a, b) < 0 || Compare(b, c) < 0 ==> Compare(a, c) < 0
  {
    StrCmpTransitive(a.lastName, b.lastName, c.lastName);
    if a.lastName == b.lastName == c.lastName { StrCmpTransitive(a.firstName, b.firstName, c.firstName); }
  }

  ghost predicate Sorted(s: seq<Contact>) { forall i, j :: 0 <= i < j < |s| ==> Compare(s[i], s[j]) <= 0 }

  // Insertion behind everything that is not greater.
  function InsertSorted(s: seq<Contact>, c: Contact): (r: seq<Contact>)
    ensures |r| == |s| + 1
  {
    if s == [] || Compare(c, s[0]) < 0 then [c] + s else [s[0]] + InsertSorted(s[1..], c)
  }

  // Insertion adds the contact and nothing else.
  lemma {:induction false} InsertSortedContents(s: seq<Contact>, c: Contact)
    ensures multiset(InsertSorted(s, c)) == multiset(s) + multiset{c}
  {
    if s != [] && Compare(c, s[0]) >= 0 {
      InsertSortedContents(s[1..], c);
      assert s == [s[0]] + s[1..];
    }
  }

  lemma {:induction false} InsertSortedKeeps(s: seq<Contact>, c: Contact)
    requires Sorted(s)
    ensures Sorted(InsertSorted(s, c))
  {
    var r := InsertSorted(s, c);
    if s != [] && Compare(c, s[0]) >= 0 {
      InsertSortedKeeps(s[1..], c);
      CompareSwap(c, s[0]);
      forall j | 0 < j < |r| ensures Compare(r[0], r[j]) <= 0 {
        InsertSortedElements(s[1..], c, j - 1);
        assert r[j] == InsertSorted(s[1..], c)[j - 1];
      }
      forall i, j | 0 <= i < j < |r| ensures Compare(r[i], r[j]) <= 0 {
        if i > 0 { assert r[i] == InsertSorted(s[1..], c)[i - 1] && r[j] == InsertSorted(s[1..], c)[j - 1]; }
      }
    } else {
      forall i, j | 0 <= i < j < |r| ensures Compare(r[i], r[j]) <= 0 {
        if i == 0 && j > 1 { CompareTransitive(c, s[0], s[j - 1]); }
      }
    }
  }

  lemma InsertSortedElements(s: seq<Contact>, c: Contact, j: nat)
    requires j <= |s|
    ensures InsertSorted(s, c)[j] == c || InsertSorted(s, c)[j] in s
  {
    InsertSortedContents(s, c);
    assert InsertSorted(s, c)[j] in multiset(InsertSorted(s, c));
  }

  // Insertion to the left of a greater element, to the right of any other.
  lemma {:induction false} InsertLeft(a: seq<Contact>, k: Contact, b: seq<Contact>, c: Contact)
    requires Compare(c, k) < 0
    ensures InsertSorted(a + [k] + b, c) == InsertSorted(a, c) + [k] + b
  {
    var s := a + [k] + b;
    if a != [] {
      assert s[1..] == a[1..] + [k] + b;
      InsertLeft(a[1..], k, b, c);
    }
  }

  lemma {:induction false} InsertBehind(a: seq<Contact>, b: seq<Contact>, c: Contact)
    requires forall x <- a :: Compare(c, x) >= 0
    ensures InsertSorted(a + b, c) == a + InsertSorted(b, c)
  {
    if a == [] {
      assert a + b == b;
    } else {
      assert (a + b)[1..] == a[1..] + b;
      assert a[0] in a;
      InsertBehind(a[1..], b, c);
    }
  }

  lemma InsertRight(a: seq<Contact>, k: Contact, b: seq<Contact>, c: Contact)
    requires Compare(c, k) >= 0 && Sorted(a + [k] + b)
    ensures InsertSorted(a + [k] + b, c) == a + [k] + InsertSorted(b, c)
  {
    SortedParts(a, k, b);
    forall x <- a + [k] ensures Compare(c, x) >= 0 {
      CompareSwap(c, k);
      CompareSwap(x, c);
      if x in a { CompareTransitive(x, k, c); }
    }
    InsertBehind(a + [k], b, c);
  }

  lemma SortedParts(a: seq<Contact>, k: Contact, b: seq<Contact>)
    requires Sorted(a + [k] + b)
    ensures Sorted(a) && Sorted(b)
    ensures forall x <- a :: Compare(x, k) <= 0
    ensures forall x <- b :: Compare(k, x) <= 0
  {
    var s := a + [k] + b;
    assert forall i :: 0 <= i < |a| ==> s[i] == a[i];
    assert forall i :: 0 <= i < |b| ==> s[|a| + 1 + i] == b[i];
    assert s[|a|] == k;
  }
}
