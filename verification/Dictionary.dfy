/**
 The cache and the database (server.c 137-162 and 223-269): words are looked up in the cache, fetched
 when they are missing, cached, and inserted into a table that a restart reads back row by row.
 The database is its sequence of rows in insertion order; an insert may fail; a fetch may return anything.
 Keys are copies, as on the reload path.
 */
module Dictionary {
  import opened Bytes
  import opened Hash
  import opened Chains
  import opened ChainedMap
  import opened Wrappers

  type Word = seq<byte>
  type Definition = seq<byte>

  datatype Row = Row(word: Word, definition: Definition)

  /** What loading rows in order leaves in an empty cache: each word with its first definition. */
  function Loaded(rows: seq<Row>): map<Word, Definition> {
    if rows == [] then map[]
    else
      var row, m := rows[|rows| - 1], Loaded(rows[..|rows| - 1]);
      if row.word in m then m else m[row.word := row.definition]
  }

  /** m has everything of sub, with the same values. */
  ghost predicate Submap<K, V>(sub: map<K, V>, m: map<K, V>) {
    forall k :: k in sub ==> k in m && m[k] == sub[k]
  }

  /** Loaded means the first definition of every stored word, and nothing else. */
  lemma {:induction false} LoadedIsFirst(rows: seq<Row>, w: Word)
    ensures w in Loaded(rows) <==> exists i :: 0 <= i < |rows| && rows[i].word == w
    ensures w in Loaded(rows) ==>
              exists i :: 0 <= i < |rows| && rows[i] == Row(w, Loaded(rows)[w]) && forall j :: 0 <= j < i ==> rows[j].word != w
  {
    if rows != [] {
      var n := |rows| - 1;
      var earlier := rows[..n];
      LoadedIsFirst(earlier, w);
      assert forall i :: 0 <= i < n ==> earlier[i] == rows[i];
      if w in Loaded(earlier) {
        var i :| 0 <= i < n && earlier[i] == Row(w, Loaded(earlier)[w]) && forall j :: 0 <= j < i ==> earlier[j].word != w;
        assert rows[i].word == w;
      } else if rows[n].word == w {
        assert rows[n] == Row(w, Loaded(rows)[w]);
      }
    }
  }

  lemma LoadedNext(rows: seq<Row>, row: Row)
    ensures Loaded(rows + [row]) == if row.word in Loaded(rows) then Loaded(rows) else Loaded(rows)[row.word := row.definition]
  {
  }

  lemma SubmapOfItself<K, V>(m: map<K, V>)
    ensures Submap(m, m)
  {
  }

  /** A word that was not cached, and so not stored, joins both or only the cache. */
  lemma StoredAndCached(rows: seq<Row>, m: map<Word, Definition>, word: Word, definition: Definition)
    requires Submap(Loaded(rows), m) && word !in m
    ensures Submap(Loaded(rows), m[word := definition])
    ensures Submap(Loaded(rows + [Row(word, definition)]), m[word := definition])
    ensures m == Loaded(rows) ==> m[word := definition] == Loaded(rows + [Row(word, definition)])
  {
  }

  class Dictionary {
    var cache: HashMap<Word, Definition>
    var db: seq<Row>
    ghost var complete: bool
    ghost var fetched: seq<(Word, Option<Definition>)>
    ghost var inserts: seq<(Row, bool)>

    /** Every stored word is cached with its first definition; if every insert succeeded, nothing else is. */
    ghost predicate Valid()
      reads this, cache, cache.entries, cache.table.owned`next
    {
      cache.Valid() && !cache.fixedSize &&
      Submap(Loaded(db), cache.Contents()) && (complete ==> cache.Contents() == Loaded(db))
    }

    /** serverInit and serverInitDictionary: a new cache, filled from the database row by row. */
    constructor (db: seq<Row>)
      requires |db| < 719_407_022
      ensures Valid() && fresh(cache.Repr()) && cache.Contents() == Loaded(db) && cache.adds <= |db|
      ensures this.db == db && complete && fetched == [] && inserts == []
    {
      hide HashMap.Valid, HashMap.Sized, Heads, Buckets.Indexed, Loaded, Submap;
      var hm := new HashMap<Word, Definition>(w => StringHash(w));
      this.cache, this.db := hm, db;
      complete, fetched, inserts := true, [], [];
      new;
      InitDictionary(hm, db);
      SubmapOfItself(Loaded(db));
    }

    /** serverConsultMerriam and the parsing of what it returns. */
    method Consult(word: Word) returns (definition: Option<Definition>)
      modifies this`fetched
      ensures fetched == old(fetched) + [(word, definition)]
    {
      definition := *;
      fetched := fetched + [(word, definition)];
    }

    /** serverPesistToDb: the row is stored, or it is not. */
    method Persist(word: Word, definition: Definition) returns (stored: bool)
      modifies this`db, this`complete, this`inserts
      ensures db == if stored then old(db) + [Row(word, definition)] else old(db)
      ensures complete == (old(complete) && stored) && inserts == old(inserts) + [(Row(word, definition), stored)]
    {
      stored := *;
      if stored {
        db := db + [Row(word, definition)];
      } else {
        complete := false;
      }
      inserts := inserts + [(Row(word, definition), stored)];
    }

    /** serverLookupClientRequest */
    method Lookup(word: Word) returns (definition: Option<Definition>)
      requires Valid() && cache.CanGrow()
      modifies this`db, this`complete, this`fetched, this`inserts, cache.Repr()
      ensures Valid() && cache == old(cache) && fresh(cache.Repr() - old(cache.Repr()))
      ensures word in old(cache.Contents()) ==>
                definition == Some(old(cache.Contents())[word]) && fetched == old(fetched) &&
                cache.Contents() == old(cache.Contents()) && db == old(db)
      ensures word !in old(cache.Contents()) ==> fetched == old(fetched) + [(word, definition)]
      ensures word !in old(cache.Contents()) && definition == None ==>
                cache.Contents() == old(cache.Contents()) && db == old(db)
      ensures word !in old(cache.Contents()) && definition.Some? ==>
                cache.Contents() == old(cache.Contents())[word := definition.value] &&
                exists stored :: db == (if stored then old(db) + [Row(word, definition.value)] else old(db)) &&
                                 complete == (old(complete) && stored) &&
                                 inserts == old(inserts) + [(Row(word, definition.value), stored)]
      ensures word in old(cache.Contents()) || definition == None ==> complete == old(complete) && inserts == old(inserts)
      ensures cache.adds <= old(cache.adds) + 1
    {
      hide HashMap.Valid, HashMap.Sized, Heads, Buckets.Indexed, Loaded, Submap;
      var he := cache.GetEntry(word);
      InContents(cache, word);
      if he != null {
        return Some(he.value);
      }
      definition := Consult(word);
      if definition == None {
        return;
      }
      StoredAndCached(db, cache.Contents(), word, definition.value);
      var _ := cache.Add(word, definition.value);
      var _ := Persist(word, definition.value);
    }

    /** The server starts again on the same database. */
    method Restart() returns (next: Dictionary)
      requires Valid() && |db| < 719_407_022
      ensures next.Valid() && fresh(next) && fresh(next.cache.Repr()) && next.cache.adds <= |db|
      ensures next.fetched == [] && next.inserts == []
      ensures next.db == db && next.cache.Contents() == Loaded(db)
      ensures Submap(next.cache.Contents(), cache.Contents())
      ensures complete ==> next.cache.Contents() == cache.Contents()
    {
      hide HashMap.Valid, Loaded;
      next := new Dictionary(db);
    }
  }

  /** serverInitDictionary: every row goes through serverTransferToCache. */
  method InitDictionary(cache: HashMap<Word, Definition>, rows: seq<Row>)
    requires cache.Valid() && !cache.fixedSize && cache.Contents() == map[] && cache.adds == 0
    requires |rows| < 719_407_022
    modifies cache.Repr()
    ensures cache.Valid() && cache.Contents() == Loaded(rows) && fresh(cache.Repr() - old(cache.Repr()))
    ensures cache.adds <= |rows|
  {
    hide HashMap.Valid, HashMap.CanGrow, HashMap.Contents, Buckets.Contents, HashMap.Sized, Heads, Buckets.Indexed, Loaded;
    LoadedNone();
    assert rows[..0] == [];
    for i := 0 to |rows|
      invariant cache.Valid() && cache.Contents() == Loaded(rows[..i]) && cache.adds <= i
      invariant fresh(cache.Repr() - old(cache.Repr()))
    {
      assert rows[..i + 1] == rows[..i] + [rows[i]];
      LoadedNext(rows[..i], rows[i]);
      cache.Room();
      TransferToCache(cache, rows[i]);
    }
    assert rows[..|rows|] == rows;
  }

  lemma LoadedNone()
    ensures Loaded([]) == map[]
  {
  }

  lemma InContents(cache: HashMap<Word, Definition>, word: Word)
    ensures word in cache.Contents() <==> word in cache.table.loc
    ensures word in cache.Contents() ==> cache.Contents()[word] == cache.table.loc[word].value
  {
  }

  /** serverTransferToCache: a word that is already there keeps its definition. */
  method TransferToCache(cache: HashMap<Word, Definition>, row: Row)
    requires cache.Valid() && cache.CanGrow()
    modifies cache.Repr()
    ensures cache.Valid() && fresh(cache.Repr() - old(cache.Repr()))
    ensures cache.Contents() == if row.word in old(cache.Contents()) then old(cache.Contents())
                                else old(cache.Contents())[row.word := row.definition]
    ensures cache.adds <= old(cache.adds) + 1
  {
    hide HashMap.Valid, HashMap.Sized, Heads, Buckets.Indexed;
    var _ := cache.Add(row.word, row.definition);
  }

  // ----- runs -----

  /**
   Whatever was cached keeps its definition, whatever is answered is what is cached from then on, and
   whatever is answered was cached before or has been fetched for that word.
   */
  ghost predicate Answers(words: seq<Word>, answers: seq<Option<Definition>>, before: map<Word, Definition>,
                          after: map<Word, Definition>, fetched: seq<(Word, Option<Definition>)>)
  {
    |answers| <= |words| && Submap(before, after) &&
    (forall w :: w in after && w !in before ==> (w, Some(after[w])) in fetched) &&
    forall i :: 0 <= i < |answers| ==>
      (answers[i].Some? ==> words[i] in after && after[words[i]] == answers[i].value) &&
      (words[i] in before ==> answers[i] == Some(before[words[i]])) &&
      (words[i] !in before ==> (words[i], answers[i]) in fetched)
  }

  lemma AnswersNone(words: seq<Word>, m: map<Word, Definition>)
    ensures Answers(words, [], m, m, [])
  {
  }

  lemma AnswersNext(words: seq<Word>, answers: seq<Option<Definition>>, before: map<Word, Definition>,
                    m: map<Word, Definition>, fetched: seq<(Word, Option<Definition>)>, answer: Option<Definition>,
                    after: map<Word, Definition>, more: seq<(Word, Option<Definition>)>)
    requires Answers(words, answers, before, m, fetched) && |answers| < |words|
    requires var w := words[|answers|];
             if w in m then answer == Some(m[w]) && after == m && more == fetched
             else after == (match answer case None => m case Some(d) => m[w := d]) && more == fetched + [(w, answer)]
    ensures Answers(words, answers + [answer], before, after, more)
  {
    assert forall f :: f in fetched ==> f in more;
  }

  /** One request after another. */
  method LookupAll(d: Dictionary, words: seq<Word>) returns (answers: seq<Option<Definition>>)
    requires d.Valid() && d.cache.adds + |words| < 719_407_022
    modifies d`db, d`complete, d`fetched, d`inserts, d.cache.Repr()
    ensures d.Valid() && d.cache == old(d.cache) && fresh(d.cache.Repr() - old(d.cache.Repr()))
    ensures old(d.fetched) <= d.fetched && |answers| == |words|
    ensures Answers(words, answers, old(d.cache.Contents()), d.cache.Contents(), d.fetched[|old(d.fetched)|..])
    ensures d.cache.adds <= old(d.cache.adds) + |words| && |d.db| <= |old(d.db)| + |words|
    ensures (forall i :: 0 <= i < |words| ==> words[i] in old(d.cache.Contents())) ==>
              d.fetched == old(d.fetched) && d.db == old(d.db) && d.complete == old(d.complete) && d.inserts == old(d.inserts)
  {
    hide HashMap.Valid, HashMap.CanGrow, HashMap.Contents, Buckets.Contents, Heads, Buckets.Indexed, Loaded, Submap, Answers;
    answers := [];
    AnswersNone(words, d.cache.Contents());
    assert d.fetched[|d.fetched|..] == [];
    for i := 0 to |words|
      invariant d.Valid() && d.cache == old(d.cache) && fresh(d.cache.Repr() - old(d.cache.Repr()))
      invariant |answers| == i && old(d.fetched) <= d.fetched
      invariant Answers(words, answers, old(d.cache.Contents()), d.cache.Contents(), d.fetched[|old(d.fetched)|..])
      invariant d.cache.adds <= old(d.cache.adds) + i && |d.db| <= |old(d.db)| + i
      invariant (forall i :: 0 <= i < |words| ==> words[i] in old(d.cache.Contents())) ==>
                  d.fetched == old(d.fetched) && d.db == old(d.db) && d.complete == old(d.complete) &&
                  d.inserts == old(d.inserts) && d.cache.Contents() == old(d.cache.Contents())
    {
      d.cache.Room();
      ghost var m, fetched := d.cache.Contents(), d.fetched[|old(d.fetched)|..];
      var answer := d.Lookup(words[i]);
      AnswersNext(words, answers, old(d.cache.Contents()), m, fetched, answer, d.cache.Contents(),
                  d.fetched[|old(d.fetched)|..]);
      answers := answers + [answer];
    }
  }

  /**
   A run: start-up on a database, requests, a restart on what the database then holds, and the same
   requests again. If every insert succeeded, each word that was answered is answered again as before.
   */
  method Session(rows: seq<Row>, words: seq<Word>)
    returns (first: Dictionary, answers: seq<Option<Definition>>, second: Dictionary, again: seq<Option<Definition>>)
    requires |rows| + 2 * |words| < 719_407_022
    ensures first.Valid() && second.Valid() && |answers| == |again| == |words|
    ensures forall i :: 0 <= i < |words| && words[i] in Loaded(rows) ==> answers[i] == Some(Loaded(rows)[words[i]])
    ensures forall i :: 0 <= i < |words| && words[i] !in Loaded(rows) ==> (words[i], answers[i]) in first.fetched
    ensures first.complete ==> forall i :: 0 <= i < |words| && answers[i].Some? ==> again[i] == answers[i]
    ensures first.complete && (forall i :: 0 <= i < |words| ==> answers[i].Some?) ==> second.fetched == []
  {
    hide HashMap.Valid, Heads, Buckets.Indexed, Loaded, Submap;
    first := new Dictionary(rows);
    answers := LookupAll(first, words);
    second := first.Restart();
    again := LookupAll(second, words);
  }
}
