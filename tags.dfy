/**
 * The tag normaliser that `create_quote` and `update_quote` run on the
 * request's tags: every tag is trimmed, blank ones are dropped, duplicates
 * collapse in a `HashSet`, and the set is collected into a `Vec` and sorted.
 *
 * `TagSet` is the `HashSet`; `Normalize` is the sorted `Vec`, computed by
 * inserting each trimmed tag into a strictly ascending list. `NormalizeIsSortedSet`
 * shows this is the only strictly ascending arrangement of the `HashSet`, which
 * is what sorting a `Vec` of distinct strings produces.
 */
module Tags {

  import opened Types
  import opened Text

  /** A name a tag row may carry: non-empty, with no whitespace at either end. */
  predicate IsTagName(s: string) {
    s != [] && !IsWhitespace(s[0]) && !IsWhitespace(s[|s| - 1])
  }

  /** Tag names are exactly the non-empty strings `trim` leaves unchanged. */
  lemma TagNameTrimmed(s: string)
    ensures IsTagName(s) <==> s != [] && Trim(s) == s
  {
    if IsTagName(s) {
      var r := Trim(s);
      assert Leading(s) == 0 && |r| == |s|;
    }
  }

  function Elems(s: seq<string>): set<string> {
    set x | x in s
  }

  /** Ascending with no repeats: the order `sort()` leaves distinct strings in. */
  predicate StrictlyAscending(s: seq<string>) {
    forall i, j :: 0 <= i < j < |s| ==> Less(s[i], s[j])
  }

  /**
   * The `HashSet` of trimmed, non-blank tags: every input tag that is not
   * blank contributes its trimmed form, and every member is a valid tag name.
   */
  function TagSet(raw: seq<string>): (names: set<string>)
    ensures forall t :: t in raw && !IsBlank(t) ==> Trim(t) in names
    ensures forall x :: x in names ==> IsTagName(x)
  {
    forall x | x in (set t | t in raw && Trim(t) != [] :: Trim(t)) ensures IsTagName(x) {
      var t :| t in raw && Trim(t) != [] && Trim(t) == x;
    }
    set t | t in raw && Trim(t) != [] :: Trim(t)
  }

  lemma {:induction false} AscendingDistinct(s: seq<string>)
    requires StrictlyAscending(s)
    ensures forall i, j :: 0 <= i < j < |s| ==> s[i] != s[j]
  {
    forall i, j | 0 <= i < j < |s| ensures s[i] != s[j] {
      assert Less(s[i], s[j]);
    }
  }

  lemma ElemsEmpty(s: seq<string>)
    ensures Elems(s) == {} <==> s == []
  {
    if s != [] {
      assert s[0] in Elems(s);
    }
  }

  lemma ElemsCons(h: string, t: seq<string>)
    ensures Elems([h] + t) == {h} + Elems(t)
  {
    var s := [h] + t;
    forall y | y in Elems(s) ensures y in {h} + Elems(t) {
      var i :| 0 <= i < |s| && s[i] == y;
      if i > 0 {
        assert t[i - 1] == y;
      }
    }
    forall y | y in Elems(t) ensures y in Elems(s) {
      var i :| 0 <= i < |t| && t[i] == y;
      assert s[i + 1] == y;
    }
  }

  /** The `HashSet` of a list is its head's contribution plus that of its tail. */
  lemma TagSetCons(raw: seq<string>)
    requires raw != []
    ensures TagSet(raw) == TagSet(raw[1..]) + (if Trim(raw[0]) == [] then {} else {Trim(raw[0])})
  {
    assert raw == [raw[0]] + raw[1..];
    forall x | x in TagSet(raw) ensures x in TagSet(raw[1..]) + (if Trim(raw[0]) == [] then {} else {Trim(raw[0])}) {
      var t :| t in raw && Trim(t) != [] && Trim(t) == x;
      if t != raw[0] {
        assert t in raw[1..];
      }
    }
  }

  /** A head below every element of an ascending tail gives an ascending list. */
  lemma ConsAscending(h: string, t: seq<string>)
    requires StrictlyAscending(t)
    requires forall y :: y in t ==> Less(h, y)
    ensures StrictlyAscending([h] + t)
  {
    var s := [h] + t;
    forall i, j | 0 <= i < j < |s| ensures Less(s[i], s[j]) {
      if i == 0 {
        assert s[j] in t;
      } else {
        assert s[i] == t[i - 1] && s[j] == t[j - 1];
      }
    }
  }

  /** Inserts `x` into a strictly ascending list unless it is already there. */
  function Insert(sorted: seq<string>, x: string): (r: seq<string>)
    requires StrictlyAscending(sorted)
    ensures StrictlyAscending(r)
    ensures Elems(r) == Elems(sorted) + {x}
    decreases |sorted|
  {
    if |sorted| == 0 then
      [x]
    else if x == sorted[0] then
      sorted
    else if Less(x, sorted[0]) then
      InsertFront(sorted, x);
      [x] + sorted
    else
      var rest := Insert(sorted[1..], x);
      InsertAfterHead(sorted, x, rest);
      [sorted[0]] + rest
  }

  lemma InsertFront(sorted: seq<string>, x: string)
    requires StrictlyAscending(sorted) && |sorted| > 0 && Less(x, sorted[0])
    ensures StrictlyAscending([x] + sorted)
  {
    forall y | y in sorted ensures Less(x, y) {
      if y != sorted[0] {
        var k :| 0 < k < |sorted| && sorted[k] == y;
        LessTransitive(x, sorted[0], y);
      }
    }
    ConsAscending(x, sorted);
  }

  lemma InsertAfterHead(sorted: seq<string>, x: string, rest: seq<string>)
    requires StrictlyAscending(sorted) && |sorted| > 0
    requires x != sorted[0] && !Less(x, sorted[0])
    requires StrictlyAscending(rest) && Elems(rest) == Elems(sorted[1..]) + {x}
    ensures StrictlyAscending([sorted[0]] + rest)
    ensures Elems([sorted[0]] + rest) == Elems(sorted) + {x}
  {
    LessTotal(x, sorted[0]);
    forall y | y in rest ensures Less(sorted[0], y) {
      assert y in Elems(rest);
      if y != x {
        assert y in Elems(sorted[1..]);
        var k :| 0 <= k < |sorted| - 1 && sorted[1..][k] == y;
        assert sorted[k + 1] == y;
      }
    }
    ConsAscending(sorted[0], rest);
    ElemsCons(sorted[0], rest);
    ElemsCons(sorted[0], sorted[1..]);
    assert sorted == [sorted[0]] + sorted[1..];
  }

  /** The trimmed, non-blank tags of `raw`, distinct and in ascending order. */
  function NormalizeAll(raw: seq<string>): (r: seq<string>)
    ensures StrictlyAscending(r)
    ensures Elems(r) == TagSet(raw)
    decreases |raw|
  {
    if raw == [] then
      []
    else
      var rest := NormalizeAll(raw[1..]);
      var t := Trim(raw[0]);
      TagSetCons(raw);
      if t == [] then rest else Insert(rest, t)
  }

  /**
   * The tag names a request's optional tag list becomes: none for an absent
   * list, otherwise the sorted contents of the `HashSet`.
   */
  function Normalize(tags: Option<seq<string>>): (r: seq<string>)
    ensures StrictlyAscending(r)
    ensures forall i, j :: 0 <= i < j < |r| ==> r[i] != r[j]
    ensures forall i :: 0 <= i < |r| ==> IsTagName(r[i])
    ensures tags.None? ==> r == []
    ensures tags.Some? ==> Elems(r) == TagSet(tags.value)
  {
    match tags
    case None => []
    case Some(raw) =>
      var r := NormalizeAll(raw);
      AscendingDistinct(r);
      assert forall i :: 0 <= i < |r| ==> r[i] in TagSet(raw);
      r
  }

  /** A name is in the output exactly when some input tag trims to it. */
  lemma NormalizeMembership(raw: seq<string>, x: string)
    ensures x in Normalize(Some(raw)) <==> x != [] && exists t :: t in raw && Trim(t) == x
  {
    var r := Normalize(Some(raw));
    assert x in r <==> x in Elems(r);
  }

  /** Two strictly ascending lists with the same elements are the same list. */
  lemma {:induction false} AscendingUnique(a: seq<string>, b: seq<string>)
    requires StrictlyAscending(a) && StrictlyAscending(b)
    requires Elems(a) == Elems(b)
    ensures a == b
    decreases |a|
  {
    if a == [] {
      ElemsEmpty(b);
    } else {
      assert a[0] in Elems(a) && b != [] && b[0] in Elems(b);
      var k :| 0 <= k < |b| && b[k] == a[0];
      var m :| 0 <= m < |a| && a[m] == b[0];
      if a[0] != b[0] {
        assert k > 0 && m > 0;
        LessAsymmetric(b[0], a[0]);
        assert false;
      }
      AscendingDistinct(a);
      AscendingDistinct(b);
      assert Elems(a[1..]) == Elems(a) - {a[0]} by {
        assert a == [a[0]] + a[1..];
      }
      assert Elems(b[1..]) == Elems(b) - {b[0]} by {
        assert b == [b[0]] + b[1..];
      }
      assert StrictlyAscending(a[1..]) && StrictlyAscending(b[1..]);
      AscendingUnique(a[1..], b[1..]);
      assert a == [a[0]] + a[1..] && b == [b[0]] + b[1..];
    }
  }

  /**
   * Collecting the `HashSet` into a `Vec` and sorting it, in whatever order
   * the set was iterated, yields exactly `Normalize`.
   */
  lemma NormalizeIsSortedSet(raw: seq<string>, sorted: seq<string>)
    requires StrictlyAscending(sorted) && Elems(sorted) == TagSet(raw)
    ensures sorted == Normalize(Some(raw))
  {
    AscendingUnique(sorted, Normalize(Some(raw)));
  }

  /** A list of valid tag names is its own `HashSet`: trimming keeps each, and none is blank. */
  lemma TagSetOfNames(n: seq<string>)
    requires forall i :: 0 <= i < |n| ==> IsTagName(n[i])
    ensures TagSet(n) == Elems(n)
  {
    forall x | x in Elems(n) ensures x in TagSet(n) {
      var i :| 0 <= i < |n| && n[i] == x;
      TagNameTrimmed(x);
    }
    forall x | x in TagSet(n) ensures x in Elems(n) {
      var t :| t in n && Trim(t) == x;
      TagNameTrimmed(t);
    }
  }

  /** Normalising an already normalised tag list returns it unchanged. */
  lemma NormalizeIdempotent(tags: Option<seq<string>>)
    ensures Normalize(Some(Normalize(tags))) == Normalize(tags)
  {
    var n := Normalize(tags);
    TagSetOfNames(n);
    AscendingUnique(Normalize(Some(n)), n);
  }

}
