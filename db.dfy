/**
 * The quote store of `db.rs`: a `quotes` table keyed by id and a `tags` table
 * whose rows point at their quote, with create, update (full tag replace),
 * delete (the cascade removes the quote's tags) and three reads.
 *
 * The SQLite database is modelled as the state of a `Store` object: `quotes`
 * maps each id to its row, `tags` lists the tag rows in table order, and
 * `nextId` is the id the next inserted quote receives. The clock is the `now`
 * argument of each mutating operation.
 */
module Db {

  import opened Types
  import opened Text
  import Tags

  /** A row of the `quotes` table (struct `Quote`). */
  datatype Quote = Quote(id: int, quote: string, source: string, createdAt: Time, updatedAt: Time)

  /** A row of the `tags` table (struct `Tag`), without its own row id. */
  datatype Tag = Tag(quoteId: int, name: string, createdAt: Time, updatedAt: Time)

  /** A quote together with the names of its tags, as every operation returns it. */
  datatype QuoteWithTags = QuoteWithTags(
    id: int, quote: string, source: string, createdAt: Time, updatedAt: Time, tags: seq<string>)

  datatype CreateQuoteRequest = CreateQuoteRequest(quote: string, source: string, tags: Option<seq<string>>)

  datatype UpdateQuoteRequest = UpdateQuoteRequest(quote: string, source: string, tags: Option<seq<string>>)

  /** `SELECT name FROM tags WHERE quote_id = ?`: the names of quote `id`'s rows, in table order. */
  function NamesOf(rows: seq<Tag>, id: int): (names: seq<string>)
    ensures |names| <= |rows|
    ensures names == [] <==> forall i :: 0 <= i < |rows| ==> rows[i].quoteId != id
  {
    if rows == [] then
      []
    else
      var rest := NamesOf(rows[1..], id);
      assert forall i :: 0 < i < |rows| ==> rows[i] == rows[1..][i - 1];
      if rows[0].quoteId == id then [rows[0].name] + rest else rest
  }

  /** The names read back for quote `id` are exactly the names on its rows. */
  lemma {:induction false} NamesOfMembers(rows: seq<Tag>, id: int)
    ensures forall x :: x in NamesOf(rows, id) <==> exists i :: 0 <= i < |rows| && rows[i].quoteId == id && rows[i].name == x
    decreases |rows|
  {
    if rows != [] {
      NamesOfMembers(rows[1..], id);
      assert forall i :: 0 < i < |rows| ==> rows[i] == rows[1..][i - 1];
      assert forall i :: 0 <= i < |rows[1..]| ==> rows[1..][i] == rows[i + 1];
    }
  }

  /** No quote has the same name on two of its tag rows. */
  ghost predicate KeysDistinct(rows: seq<Tag>) {
    forall i, j :: 0 <= i < j < |rows| && rows[i].quoteId == rows[j].quoteId ==> rows[i].name != rows[j].name
  }

  lemma KeysDistinctCons(h: Tag, t: seq<Tag>)
    requires KeysDistinct(t)
    requires forall u :: u in t && u.quoteId == h.quoteId ==> u.name != h.name
    ensures KeysDistinct([h] + t)
  {
    var s := [h] + t;
    forall i, j | 0 <= i < j < |s| && s[i].quoteId == s[j].quoteId ensures s[i].name != s[j].name {
      if i == 0 {
        assert s[j] in t;
      } else {
        assert s[i] == t[i - 1] && s[j] == t[j - 1];
      }
    }
  }

  /**
   * `DELETE FROM tags WHERE quote_id = ?`, and the cascade of deleting the
   * quote: the rows of every other quote stay, in order.
   */
  function WithoutQuote(rows: seq<Tag>, id: int): (r: seq<Tag>)
    ensures |r| <= |rows|
    ensures forall t :: t in r <==> t in rows && t.quoteId != id
    ensures KeysDistinct(rows) ==> KeysDistinct(r)
  {
    if rows == [] then
      []
    else
      var rest := WithoutQuote(rows[1..], id);
      assert rows == [rows[0]] + rows[1..];
      if rows[0].quoteId == id then
        rest
      else
        KeepHeadDistinct(rows, rest);
        [rows[0]] + rest
  }

  lemma KeepHeadDistinct(rows: seq<Tag>, rest: seq<Tag>)
    requires rows != []
    requires forall t :: t in rest ==> t in rows[1..]
    requires KeysDistinct(rows) ==> KeysDistinct(rest)
    ensures KeysDistinct(rows) ==> KeysDistinct([rows[0]] + rest)
  {
    if KeysDistinct(rows) {
      forall u | u in rest && u.quoteId == rows[0].quoteId ensures u.name != rows[0].name {
        var k :| 0 <= k < |rows[1..]| && rows[1..][k] == u;
        assert rows[k + 1] == u;
      }
      KeysDistinctCons(rows[0], rest);
    }
  }

  lemma {:induction false} NamesOfAppend(a: seq<Tag>, b: seq<Tag>, id: int)
    ensures NamesOf(a + b, id) == NamesOf(a, id) + NamesOf(b, id)
    decreases |a|
  {
    if a == [] {
      assert a + b == b;
    } else {
      assert (a + b)[0] == a[0] && (a + b)[1..] == a[1..] + b;
      NamesOfAppend(a[1..], b, id);
    }
  }

  /** Removing one quote's rows leaves every other quote's tag names as they were. */
  lemma {:induction false} WithoutQuoteKeepsOthers(rows: seq<Tag>, id: int, other: int)
    requires other != id
    ensures NamesOf(WithoutQuote(rows, id), other) == NamesOf(rows, other)
    decreases |rows|
  {
    if rows != [] {
      WithoutQuoteKeepsOthers(rows[1..], id, other);
      if rows[0].quoteId != id {
        var rest := WithoutQuote(rows[1..], id);
        assert ([rows[0]] + rest)[1..] == rest;
      }
    }
  }

  /** Removing the rows of a quote that has none changes nothing. */
  lemma {:induction false} WithoutQuoteNoop(rows: seq<Tag>, id: int)
    requires forall i :: 0 <= i < |rows| ==> rows[i].quoteId != id
    ensures WithoutQuote(rows, id) == rows
    decreases |rows|
  {
    if rows != [] {
      assert forall i :: 0 < i < |rows| ==> rows[i] == rows[1..][i - 1];
      WithoutQuoteNoop(rows[1..], id);
      assert rows == [rows[0]] + rows[1..];
    }
  }

  /** The names of a quote whose rows carry distinct names are distinct. */
  lemma {:induction false} NamesOfDistinct(rows: seq<Tag>, id: int)
    ensures KeysDistinct(rows) ==>
      forall i, j :: 0 <= i < j < |NamesOf(rows, id)| ==> NamesOf(rows, id)[i] != NamesOf(rows, id)[j]
    decreases |rows|
  {
    if rows != [] && KeysDistinct(rows) {
      assert KeysDistinct(rows[1..]) by {
        forall i, j | 0 <= i < j < |rows[1..]| && rows[1..][i].quoteId == rows[1..][j].quoteId
          ensures rows[1..][i].name != rows[1..][j].name
        {
          assert rows[1..][i] == rows[i + 1] && rows[1..][j] == rows[j + 1];
        }
      }
      NamesOfDistinct(rows[1..], id);
      NamesOfMembers(rows[1..], id);
      var rest := NamesOf(rows[1..], id);
      if rows[0].quoteId == id {
        var s := [rows[0].name] + rest;
        forall i, j | 0 <= i < j < |s| ensures s[i] != s[j] {
          if i == 0 {
            assert s[j] in rest;
            var k :| 0 <= k < |rows[1..]| && rows[1..][k].quoteId == id && rows[1..][k].name == s[j];
            assert rows[k + 1] == rows[1..][k];
          } else {
            assert s[i] == rest[i - 1] && s[j] == rest[j - 1];
          }
        }
      }
    }
  }

  /**
   * The rows `create_quote` or `update_quote` insert for quote `id` from the
   * tag set `names`: one row per name, all stamped `now`.
   */
  ghost predicate InsertedRows(rows: seq<Tag>, id: int, names: set<string>, now: Time) {
    && (forall i :: 0 <= i < |rows| ==> rows[i] == Tag(id, rows[i].name, now, now))
    && (forall i, j :: 0 <= i < j < |rows| ==> rows[i].name != rows[j].name)
    && (forall i :: 0 <= i < |rows| ==> rows[i].name in names)
    && (forall x :: x in names ==> exists i :: 0 <= i < |rows| && rows[i].name == x)
  }

  /** Reading back freshly inserted rows gives exactly the inserted names, each once. */
  lemma {:induction false} InsertedRowsNames(rows: seq<Tag>, id: int, names: set<string>, now: Time)
    requires InsertedRows(rows, id, names, now)
    ensures Tags.Elems(NamesOf(rows, id)) == names
    ensures KeysDistinct(rows)
  {
    var n := NamesOf(rows, id);
    NamesOfMembers(rows, id);
    forall x | x in names ensures x in Tags.Elems(n) {
      var i :| 0 <= i < |rows| && rows[i].name == x;
      assert rows[i].quoteId == id;
    }
  }

  lemma InsertStep(added: seq<Tag>, id: int, done: set<string>, t: string, now: Time)
    requires InsertedRows(added, id, done, now) && t !in done
    ensures InsertedRows(added + [Tag(id, t, now, now)], id, done + {t}, now)
  {
    var s := added + [Tag(id, t, now, now)];
    forall x | x in done + {t} ensures exists i :: 0 <= i < |s| && s[i].name == x {
      if x == t {
        assert s[|added|].name == x;
      } else {
        var i :| 0 <= i < |added| && added[i].name == x;
        assert s[i].name == x;
      }
    }
  }

  /** The tables are consistent: ids below the counter, no orphan tag, valid distinct names. */
  ghost predicate Consistent(quotes: map<int, Quote>, tags: seq<Tag>, nextId: int) {
    && 0 < nextId
    && (forall id :: id in quotes ==> 0 < id < nextId && quotes[id].id == id)
    && (forall i :: 0 <= i < |tags| ==> tags[i].quoteId in quotes && Tags.IsTagName(tags[i].name))
    && KeysDistinct(tags)
  }

  /** Adding the rows of a quote that had none keeps the tables consistent. */
  lemma InsertConsistent(quotes: map<int, Quote>, base: seq<Tag>, added: seq<Tag>, id: int, names: set<string>, now: Time, nextId: int)
    requires Consistent(quotes, base, nextId) && id in quotes
    requires forall i :: 0 <= i < |base| ==> base[i].quoteId != id
    requires InsertedRows(added, id, names, now)
    requires forall n :: n in names ==> Tags.IsTagName(n)
    ensures Consistent(quotes, base + added, nextId)
  {
    var s := base + added;
    forall i | 0 <= i < |s| ensures s[i].quoteId in quotes && Tags.IsTagName(s[i].name) {
      if i >= |base| {
        assert s[i] == added[i - |base|];
      }
    }
    AppendDistinct(base, added, id);
  }

  /** Appending rows of one quote, distinct among themselves, to rows of other quotes keeps names distinct per quote. */
  lemma AppendDistinct(base: seq<Tag>, added: seq<Tag>, id: int)
    requires KeysDistinct(base) && forall i :: 0 <= i < |base| ==> base[i].quoteId != id
    requires forall i :: 0 <= i < |added| ==> added[i].quoteId == id
    requires forall i, j :: 0 <= i < j < |added| ==> added[i].name != added[j].name
    ensures KeysDistinct(base + added)
  {
    var s := base + added;
    assert forall i :: 0 <= i < |base| ==> s[i] == base[i];
    assert forall i :: |base| <= i < |s| ==> s[i] == added[i - |base|];
    forall i, j | 0 <= i < j < |s| && s[i].quoteId == s[j].quoteId ensures s[i].name != s[j].name {
      if j < |base| {
        assert s[i] == base[i] && s[j] == base[j];
      } else if i >= |base| {
        assert s[i] == added[i - |base|] && s[j] == added[j - |base|];
      }
    }
  }

  /** Everything of two projections except the order in which the tag names are listed. */
  ghost predicate SameUpToTagOrder(a: QuoteWithTags, b: QuoteWithTags) {
    && a.id == b.id && a.quote == b.quote && a.source == b.source
    && a.createdAt == b.createdAt && a.updatedAt == b.updatedAt
    && Tags.Elems(a.tags) == Tags.Elems(b.tags)
  }

  /** Some quote created no later than any other in `ids` exists, so newest-first is well defined. */
  lemma {:induction false} NewestExists(quotes: map<int, Quote>, ids: set<int>)
    requires ids != {} && ids <= quotes.Keys
    ensures exists id :: id in ids && forall j :: j in ids ==> quotes[j].createdAt <= quotes[id].createdAt
    decreases ids
  {
    assert (forall y :: y !in ids) ==> ids == {};
    var x :| x in ids;
    if ids != {x} {
      NewestExists(quotes, ids - {x});
      var y :| y in ids - {x} && forall j :: j in ids - {x} ==> quotes[j].createdAt <= quotes[y].createdAt;
      if quotes[x].createdAt <= quotes[y].createdAt {
        assert forall j :: j in ids ==> quotes[j].createdAt <= quotes[y].createdAt;
      } else {
        assert forall j :: j in ids ==> quotes[j].createdAt <= quotes[x].createdAt;
      }
    }
  }

  /**
   * The `for tag in &unique_tags` loop of `create_quote` and `update_quote`:
   * one row for quote `id` per name of the set, stamped `now`, in the set's
   * iteration order.
   */
  method TagRows(id: int, names: set<string>, now: Time) returns (rows: seq<Tag>)
    ensures InsertedRows(rows, id, names, now)
    ensures |rows| == |names|
  {
    rows := [];
    var remaining := names;
    while remaining != {}
      invariant RowsSoFar(rows, id, names, remaining, now)
      decreases |remaining|
    {
      assert (forall u :: u !in remaining) ==> remaining == {};
      var t :| t in remaining;
      RowsSoFarStep(rows, id, names, remaining, t, now);
      rows := rows + [Tag(id, t, now, now)];
      remaining := remaining - {t};
    }
    assert names - remaining == names;
  }

  /** The loop of `TagRows` has inserted a row for each name not in `remaining`. */
  ghost predicate RowsSoFar(rows: seq<Tag>, id: int, names: set<string>, remaining: set<string>, now: Time) {
    remaining <= names && InsertedRows(rows, id, names - remaining, now) && |rows| + |remaining| == |names|
  }

  lemma RowsSoFarStep(rows: seq<Tag>, id: int, names: set<string>, remaining: set<string>, t: string, now: Time)
    requires RowsSoFar(rows, id, names, remaining, now) && t in remaining
    ensures RowsSoFar(rows + [Tag(id, t, now, now)], id, names, remaining - {t}, now)
  {
    InsertStep(rows, id, names - remaining, t, now);
    assert names - (remaining - {t}) == (names - remaining) + {t};
  }

  /** The tag set a request asks for: the normalised names, none when the field is absent. */
  function RequestNames(tags: Option<seq<string>>): (names: set<string>)
    ensures names == Tags.Elems(Tags.Normalize(tags))
  {
    Tags.ElemsEmpty(Tags.Normalize(None));
    if tags.Some? then Tags.TagSet(tags.value) else {}
  }

  /** A quote row with the counter's id keeps the tables consistent once the counter moves on. */
  lemma NewQuoteConsistent(quotes: map<int, Quote>, tags: seq<Tag>, nextId: int, q: Quote)
    requires Consistent(quotes, tags, nextId) && q.id == nextId
    ensures nextId !in quotes
    ensures Consistent(quotes[nextId := q], tags, nextId + 1)
  {
  }

  /** Replacing a stored quote's row by one with the same id keeps the tables consistent. */
  lemma ReplaceQuoteConsistent(quotes: map<int, Quote>, tags: seq<Tag>, nextId: int, q: Quote)
    requires Consistent(quotes, tags, nextId) && q.id in quotes
    ensures Consistent(quotes[q.id := q], WithoutQuote(tags, q.id), nextId)
    ensures forall i :: 0 <= i < |WithoutQuote(tags, q.id)| ==> WithoutQuote(tags, q.id)[i].quoteId != q.id
  {
    var kept := WithoutQuote(tags, q.id);
    forall i | 0 <= i < |kept| ensures kept[i].quoteId != q.id && kept[i].quoteId in quotes && Tags.IsTagName(kept[i].name) {
      assert kept[i] in kept;
    }
  }

  /** Deleting a quote together with its tag rows keeps the tables consistent. */
  lemma RemoveQuoteConsistent(quotes: map<int, Quote>, tags: seq<Tag>, nextId: int, id: int)
    requires Consistent(quotes, tags, nextId)
    ensures Consistent(quotes - {id}, WithoutQuote(tags, id), nextId)
    ensures forall i :: 0 <= i < |WithoutQuote(tags, id)| ==> WithoutQuote(tags, id)[i].quoteId != id
  {
    var kept := WithoutQuote(tags, id);
    forall i | 0 <= i < |kept| ensures kept[i].quoteId != id && kept[i].quoteId in quotes - {id} && Tags.IsTagName(kept[i].name) {
      assert kept[i] in kept;
    }
  }

  /** Deleting an id the store does not hold removes no tag row. */
  lemma RemoveAbsentNoop(quotes: map<int, Quote>, tags: seq<Tag>, nextId: int, id: int)
    requires Consistent(quotes, tags, nextId) && id !in quotes
    ensures WithoutQuote(tags, id) == tags
  {
    WithoutQuoteNoop(tags, id);
  }

  /** Deleting quote `id` leaves every other quote's joined row as it was. */
  lemma RemoveKeepsOthers(quotes: map<int, Quote>, tags: seq<Tag>, id: int)
    ensures forall other :: other != id ==> Lookup(quotes - {id}, WithoutQuote(tags, id), other) == Lookup(quotes, tags, other)
  {
    forall other | other != id ensures Lookup(quotes - {id}, WithoutQuote(tags, id), other) == Lookup(quotes, tags, other) {
      WithoutQuoteKeepsOthers(tags, id, other);
    }
  }

  /**
   * Appending the fresh rows of a quote that had none keeps the tables
   * consistent, reads back as exactly the inserted names, and leaves every
   * other quote's names as they were.
   */
  lemma AddRowsConsistent(quotes: map<int, Quote>, base: seq<Tag>, added: seq<Tag>, id: int, names: set<string>, now: Time, nextId: int)
    requires Consistent(quotes, base, nextId) && id in quotes
    requires forall i :: 0 <= i < |base| ==> base[i].quoteId != id
    requires InsertedRows(added, id, names, now)
    requires forall n :: n in names ==> Tags.IsTagName(n)
    ensures Consistent(quotes, base + added, nextId)
    ensures Tags.Elems(NamesOf(base + added, id)) == names
  {
    InsertConsistent(quotes, base, added, id, names, now, nextId);
    AddedRowsNames(base, added, id, names, now);
  }

  /**
   * Writing quote `id`'s row and appending rows of `id` to tables in which the
   * other quotes read as in `tags` leaves every other quote's joined row as it was.
   */
  lemma PutKeepsOthers(quotes: map<int, Quote>, base: seq<Tag>, tags: seq<Tag>, id: int, q: Quote, rows: seq<Tag>)
    requires forall i :: 0 <= i < |rows| ==> rows[i].quoteId == id
    requires forall other :: other != id ==> NamesOf(base, other) == NamesOf(tags, other)
    ensures forall other :: other != id ==> Lookup(quotes[id := q], base + rows, other) == Lookup(quotes, tags, other)
  {
    AddedRowsKeepOthers(base, rows, id);
  }

  lemma AddedRowsNames(base: seq<Tag>, added: seq<Tag>, id: int, names: set<string>, now: Time)
    requires forall i :: 0 <= i < |base| ==> base[i].quoteId != id
    requires InsertedRows(added, id, names, now)
    ensures Tags.Elems(NamesOf(base + added, id)) == names
  {
    InsertedRowsNames(added, id, names, now);
    NamesOfAppend(base, added, id);
    assert NamesOf(base, id) == [];
  }

  lemma AddedRowsKeepOthers(base: seq<Tag>, added: seq<Tag>, id: int)
    requires forall i :: 0 <= i < |added| ==> added[i].quoteId == id
    ensures forall other :: other != id ==> NamesOf(base + added, other) == NamesOf(base, other)
  {
    forall other | other != id ensures NamesOf(base + added, other) == NamesOf(base, other) {
      NamesOfAppend(base, added, other);
      assert NamesOf(added, other) == [];
    }
  }

  /**
   * The tables after `create_quote` inserts row `q` with the counter's id and
   * the rows of tag set `names`: consistent, the new quote reads back with
   * exactly those names, every other quote reads as before.
   */
  lemma InsertTables(quotes: map<int, Quote>, tags: seq<Tag>, nextId: int, q: Quote, names: set<string>, rows: seq<Tag>, now: Time)
    requires Consistent(quotes, tags, nextId) && q.id == nextId
    requires InsertedRows(rows, q.id, names, now) && forall n :: n in names ==> Tags.IsTagName(n)
    ensures q.id !in quotes
    ensures Consistent(quotes[q.id := q], tags + rows, nextId + 1)
    ensures Tags.Elems(NamesOf(tags + rows, q.id)) == names
    ensures forall other :: other != q.id ==> Lookup(quotes[q.id := q], tags + rows, other) == Lookup(quotes, tags, other)
  {
    NewQuoteConsistent(quotes, tags, nextId, q);
    assert forall i :: 0 <= i < |tags| ==> tags[i].quoteId in quotes;
    AddRowsConsistent(quotes[q.id := q], tags, rows, q.id, names, now, nextId + 1);
    PutKeepsOthers(quotes, tags, tags, q.id, q, rows);
  }

  /**
   * The tables after `update_quote` overwrites the row of `q.id`, deletes its
   * tag rows and appends the rows of tag set `names`: consistent, the quote
   * reads back with exactly those names, every other quote reads as before.
   */
  lemma ReplaceTables(quotes: map<int, Quote>, tags: seq<Tag>, nextId: int, q: Quote, names: set<string>, rows: seq<Tag>, now: Time)
    requires Consistent(quotes, tags, nextId) && q.id in quotes
    requires InsertedRows(rows, q.id, names, now) && forall n :: n in names ==> Tags.IsTagName(n)
    ensures Consistent(quotes[q.id := q], WithoutQuote(tags, q.id) + rows, nextId)
    ensures Tags.Elems(NamesOf(WithoutQuote(tags, q.id) + rows, q.id)) == names
    ensures forall other :: other != q.id ==> Lookup(quotes[q.id := q], WithoutQuote(tags, q.id) + rows, other) == Lookup(quotes, tags, other)
  {
    var kept := WithoutQuote(tags, q.id);
    ReplaceQuoteConsistent(quotes, tags, nextId, q);
    AddRowsConsistent(quotes[q.id := q], kept, rows, q.id, names, now, nextId);
    forall other | other != q.id ensures NamesOf(kept, other) == NamesOf(tags, other) {
      WithoutQuoteKeepsOthers(tags, q.id, other);
    }
    PutKeepsOthers(quotes, kept, tags, q.id, q, rows);
  }

  /**
   * The quote-plus-tags projection the reads return: present exactly for a
   * stored id, with that row's fields and exactly the names of the tag rows
   * that point at it.
   */
  function Lookup(quotes: map<int, Quote>, tags: seq<Tag>, id: int): (r: Option<QuoteWithTags>)
    ensures r.Some? <==> id in quotes
    ensures r.Some? ==>
      && r.value.id == id && r.value.quote == quotes[id].quote && r.value.source == quotes[id].source
      && r.value.createdAt == quotes[id].createdAt && r.value.updatedAt == quotes[id].updatedAt
    ensures r.Some? ==> forall x :: x in r.value.tags <==> exists i :: 0 <= i < |tags| && tags[i].quoteId == id && tags[i].name == x
  {
    NamesOfMembers(tags, id);
    if id in quotes then
      var q := quotes[id];
      Some(QuoteWithTags(id, q.quote, q.source, q.createdAt, q.updatedAt, NamesOf(tags, id)))
    else
      None
  }

  /**
   * What `get_all_quotes` has produced once the ids in `remaining` are still
   * to come: each other quote exactly once, newest first, none older than
   * what is left.
   */
  ghost predicate Listed(quotes: map<int, Quote>, tags: seq<Tag>, all: seq<QuoteWithTags>, remaining: set<int>) {
    ListedOnce(quotes, tags, all, remaining) && ListedNewestFirst(quotes, all, remaining)
  }

  /** Every quote not in `remaining` appears exactly once, joined with its tags. */
  ghost predicate ListedOnce(quotes: map<int, Quote>, tags: seq<Tag>, all: seq<QuoteWithTags>, remaining: set<int>) {
    && remaining <= quotes.Keys
    && |all| + |remaining| == |quotes|
    && (forall i :: 0 <= i < |all| ==> all[i].id in quotes && all[i].id !in remaining && Lookup(quotes, tags, all[i].id) == Some(all[i]))
    && (forall i, j :: 0 <= i < j < |all| ==> all[i].id != all[j].id)
    && (forall id :: id in quotes && id !in remaining ==> exists i :: 0 <= i < |all| && all[i].id == id)
  }

  /** The listing is newest first, and nothing still to come is newer than what is listed. */
  ghost predicate ListedNewestFirst(quotes: map<int, Quote>, all: seq<QuoteWithTags>, remaining: set<int>) {
    && (forall i, j :: 0 <= i < j < |all| ==> all[i].createdAt >= all[j].createdAt)
    && (forall i, id :: 0 <= i < |all| && id in remaining && id in quotes ==> all[i].createdAt >= quotes[id].createdAt)
  }

  /** Taking a newest remaining quote keeps the listing newest first. */
  lemma ListedStep(quotes: map<int, Quote>, tags: seq<Tag>, all: seq<QuoteWithTags>, remaining: set<int>, id: int)
    requires Listed(quotes, tags, all, remaining)
    requires id in remaining && forall j :: j in remaining ==> quotes[j].createdAt <= quotes[id].createdAt
    ensures Listed(quotes, tags, all + [Lookup(quotes, tags, id).value], remaining - {id})
  {
    ListedOnceStep(quotes, tags, all, remaining, id);
    var entry := Lookup(quotes, tags, id).value;
    assert entry.createdAt == quotes[id].createdAt;
  }

  lemma ListedOnceStep(quotes: map<int, Quote>, tags: seq<Tag>, all: seq<QuoteWithTags>, remaining: set<int>, id: int)
    requires ListedOnce(quotes, tags, all, remaining) && id in remaining
    ensures ListedOnce(quotes, tags, all + [Lookup(quotes, tags, id).value], remaining - {id})
  {
    var next := all + [Lookup(quotes, tags, id).value];
    forall x | x in quotes && x !in remaining - {id} ensures exists i :: 0 <= i < |next| && next[i].id == x {
      if x == id {
        assert next[|all|].id == x;
      } else {
        var i :| 0 <= i < |all| && all[i].id == x;
        assert next[i].id == x;
      }
    }
  }

  class Store {
    var quotes: map<int, Quote>
    var tags: seq<Tag>
    var nextId: int

    ghost predicate Valid()
      reads this
    {
      Consistent(quotes, tags, nextId)
    }

    /** A freshly migrated, empty database. */
    constructor ()
      ensures Valid() && quotes == map[] && tags == [] && nextId == 1
    {
      quotes, tags, nextId := map[], [], 1;
    }

    /**
     * `get_quote_by_id`: nothing for an absent id; otherwise the row's fields
     * and the names of that quote's tag rows, in table order (the read does not sort).
     */
    function GetQuoteById(id: int): (r: Option<QuoteWithTags>)
      reads this
      ensures r.Some? <==> id in quotes
      ensures r.Some? ==> r.value.id == id && r.value.quote == quotes[id].quote && r.value.source == quotes[id].source
      ensures r.Some? ==> r.value.createdAt == quotes[id].createdAt && r.value.updatedAt == quotes[id].updatedAt
      ensures r.Some? ==> forall x :: x in r.value.tags <==> exists i :: 0 <= i < |tags| && tags[i].quoteId == id && tags[i].name == x
      ensures r.Some? && Valid() ==> forall i, j :: 0 <= i < j < |r.value.tags| ==> r.value.tags[i] != r.value.tags[j]
    {
      NamesOfDistinct(tags, id);
      Lookup(quotes, tags, id)
    }

    /**
     * `create_quote`: inserts one quote row with a fresh id, stamped `now`
     * twice, and one tag row per normalised tag name; returns the quote with
     * its sorted tag names. Nothing else in the store changes.
     */
    method CreateQuote(request: CreateQuoteRequest, now: Time) returns (created: QuoteWithTags)
      requires Valid()
      modifies this
      ensures Valid()
      ensures created.id == old(nextId) && created.id !in old(quotes) && nextId == old(nextId) + 1
      ensures created == QuoteWithTags(created.id, request.quote, request.source, now, now, Tags.Normalize(request.tags))
      ensures quotes == old(quotes)[created.id := Quote(created.id, request.quote, request.source, now, now)]
      ensures |old(tags)| <= |tags| && tags[..|old(tags)|] == old(tags)
      ensures InsertedRows(tags[|old(tags)|..], created.id, Tags.Elems(created.tags), now)
      ensures GetQuoteById(created.id).Some? && SameUpToTagOrder(GetQuoteById(created.id).value, created)
      ensures forall id :: id in old(quotes) ==> GetQuoteById(id) == old(GetQuoteById(id))
    {
      var id := nextId;
      var q := Quote(id, request.quote, request.source, now, now);
      var names := RequestNames(request.tags);
      var rows := TagRows(id, names, now);
      var newTags := tags + rows;
      assert newTags[..|tags|] == tags && newTags[|tags|..] == rows;
      InsertTables(quotes, tags, nextId, q, names, rows, now);
      quotes := quotes[id := q];
      nextId := nextId + 1;
      tags := newTags;
      created := QuoteWithTags(id, request.quote, request.source, now, now, Tags.Normalize(request.tags));
    }

    /**
     * `update_quote`: nothing for an absent id, and the store is untouched;
     * otherwise the row keeps `created_at`, takes the new text, source and
     * `updated_at = now`, and the quote's tag rows are replaced by the rows of
     * the new normalised set (none when the request has no tags). Other
     * quotes are untouched.
     */
    method UpdateQuote(id: int, request: UpdateQuoteRequest, now: Time) returns (updated: Option<QuoteWithTags>)
      requires Valid()
      modifies this
      ensures Valid()
      ensures updated.None? <==> id !in old(quotes)
      ensures updated.None? ==> unchanged(this)
      ensures updated.Some? ==>
        && updated.value == QuoteWithTags(id, request.quote, request.source, old(quotes[id].createdAt), now, Tags.Normalize(request.tags))
        && quotes == old(quotes)[id := Quote(id, request.quote, request.source, old(quotes[id].createdAt), now)]
        && nextId == old(nextId)
        && var kept := WithoutQuote(old(tags), id);
           |kept| <= |tags| && tags[..|kept|] == kept && InsertedRows(tags[|kept|..], id, Tags.Elems(updated.value.tags), now)
      ensures updated.Some? ==> GetQuoteById(id).Some? && SameUpToTagOrder(GetQuoteById(id).value, updated.value)
      ensures forall other :: other in old(quotes) && other != id ==> GetQuoteById(other) == old(GetQuoteById(other))
    {
      if id !in quotes {
        return None;
      }
      var createdAt := quotes[id].createdAt;
      var q := Quote(id, request.quote, request.source, createdAt, now);
      var kept := WithoutQuote(tags, id);
      var names := RequestNames(request.tags);
      var rows := TagRows(id, names, now);
      var newTags := kept + rows;
      assert newTags[..|kept|] == kept && newTags[|kept|..] == rows;
      ReplaceTables(quotes, tags, nextId, q, names, rows, now);
      quotes := quotes[id := q];
      tags := newTags;
      updated := Some(QuoteWithTags(id, request.quote, request.source, createdAt, now, Tags.Normalize(request.tags)));
    }

    /**
     * `delete_quote`: `false` and no change for an absent id; otherwise
     * `true`, the quote row is gone and so is every tag row pointing at it.
     */
    method DeleteQuote(id: int) returns (deleted: bool)
      requires Valid()
      modifies this
      ensures Valid()
      ensures deleted <==> id in old(quotes)
      ensures !deleted ==> unchanged(this)
      ensures quotes == old(quotes) - {id} && nextId == old(nextId)
      ensures tags == WithoutQuote(old(tags), id)
      ensures GetQuoteById(id).None? && forall i :: 0 <= i < |tags| ==> tags[i].quoteId != id
      ensures forall other :: other in old(quotes) && other != id ==> GetQuoteById(other) == old(GetQuoteById(other))
    {
      deleted := id in quotes;
      RemoveQuoteConsistent(quotes, tags, nextId, id);
      if !deleted {
        RemoveAbsentNoop(quotes, tags, nextId, id);
        assert quotes - {id} == quotes;
      }
      quotes := quotes - {id};
      tags := WithoutQuote(tags, id);
      RemoveKeepsOthers(old(quotes), old(tags), id);
    }

    /**
     * `get_all_quotes`: every quote exactly once, each with its tags, newest
     * first. Each round takes a newest remaining quote (`ORDER BY created_at
     * DESC`, ties in no particular order) and attaches its tag names.
     */
    method GetAllQuotes() returns (all: seq<QuoteWithTags>)
      ensures |all| == |quotes|
      ensures forall i :: 0 <= i < |all| ==> all[i].id in quotes && GetQuoteById(all[i].id) == Some(all[i])
      ensures forall i, j :: 0 <= i < j < |all| ==> all[i].id != all[j].id
      ensures forall id :: id in quotes ==> exists i :: 0 <= i < |all| && all[i].id == id
      ensures forall i, j :: 0 <= i < j < |all| ==> all[i].createdAt >= all[j].createdAt
    {
      var remaining := quotes.Keys;
      all := [];
      while remaining != {}
        invariant Listed(quotes, tags, all, remaining)
        decreases |remaining|
      {
        NewestExists(quotes, remaining);
        var id :| id in remaining && forall j :: j in remaining ==> quotes[j].createdAt <= quotes[id].createdAt;
        ListedStep(quotes, tags, all, remaining, id);
        all := all + [GetQuoteById(id).value];
        remaining := remaining - {id};
      }
    }

    /**
     * `get_random_quote`: nothing exactly when the store is empty; otherwise
     * some stored quote with its tags (which one is the database's choice).
     */
    method GetRandomQuote() returns (r: Option<QuoteWithTags>)
      ensures r.None? <==> |quotes| == 0
      ensures r.Some? ==> r.value.id in quotes && GetQuoteById(r.value.id) == r
    {
      if |quotes| == 0 {
        return None;
      }
      assert (forall k :: k !in quotes) ==> quotes.Keys == {};
      var id :| id in quotes;
      r := GetQuoteById(id);
    }
  }
}
