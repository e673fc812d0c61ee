/**
 * The Taggable trait shared by Book and Author: single-tag attach, detach
 * and membership, detaching everything, and `syncTags`, which maps a list
 * of entries to array keys (numeric entries as they are, names through
 * their tag's id, creating tags on the way) and hands them to the
 * relation's `sync`.
 */
module Taggable {
  import opened Wrappers
  import opened Store
  import PhpText

  /** The ids of the tags attached to `e`. */
  function TagsOf(links: seq<Link>, e: Entity): set<TagId>
  {
    set l | l in links && l.entity == e :: l.tag
  }

  lemma TagsOfMember(links: seq<Link>, e: Entity, t: TagId)
    ensures t in TagsOf(links, e) <==> Link(e, t) in links
  {
    if t in TagsOf(links, e) {
      var l :| l in links && l.entity == e && l.tag == t;
      assert l == Link(e, t);
    }
  }

  /** `$model->hasTag($tag)`: is the tag attached to the model? */
  function HasTag(db: Database, e: Entity, tag: TagId): (r: bool)
    reads db
    ensures r <==> tag in TagsOf(db.links, e)
  {
    TagsOfMember(db.links, e, tag);
    Link(e, tag) in db.links
  }

  /** The relation's `detach($ids)`: deletes every pivot row of `e` whose tag is in `drop`. */
  function Detach(links: seq<Link>, e: Entity, drop: set<TagId>): (r: seq<Link>)
    ensures forall l :: l in r <==> l in links && !(l.entity == e && l.tag in drop)
    ensures (forall l :: l in links ==> !(l.entity == e && l.tag in drop)) ==> r == links
    ensures NoDuplicates(links) ==> NoDuplicates(r)
    decreases |links|
  {
    if |links| == 0 then []
    else
      var init := links[..|links| - 1];
      var l := links[|links| - 1];
      assert links == init + [l];
      var p := Detach(init, e, drop);
      if l.entity == e && l.tag in drop then p
      else
        assert NoDuplicates(links) ==> l !in init;
        p + [l]
  }

  /**
   * A key of the array `sync` receives. PHP stores a string key that is
   * the canonical spelling of a 64-bit integer ("7", "-3") as that
   * integer; any other numeric spelling ("007", "+7", " 7") stays a
   * string, whose numeric value is what the database stores for it.
   */
  datatype SyncKey = IntKey(id: TagId) | StrKey(raw: string, value: TagId)

  /** The tag id a key stands for once it reaches the pivot table. */
  function KeyValue(k: SyncKey): TagId
  {
    match k
    case IntKey(id) => id
    case StrKey(_, v) => v
  }

  /** Every key is an integer key. */
  predicate IntKeys(keys: seq<SyncKey>)
  {
    forall k :: k in keys ==> k.IntKey?
  }

  /** The tag ids of a list of keys, in order. */
  function Values(keys: seq<SyncKey>): (r: seq<TagId>)
    ensures |r| == |keys|
    ensures forall k :: k in keys ==> KeyValue(k) in r
    ensures forall x :: x in r ==> exists k :: k in keys && KeyValue(k) == x
  {
    var r := seq(|keys|, i requires 0 <= i < |keys| => KeyValue(keys[i]));
    assert forall k :: k in keys ==> KeyValue(k) in r by {
      forall k | k in keys ensures KeyValue(k) in r {
        var i :| 0 <= i < |keys| && keys[i] == k;
        assert r[i] == KeyValue(k);
      }
    }
    r
  }

  /** Distinct integer keys stand for distinct ids. */
  lemma ValuesNoDuplicates(keys: seq<SyncKey>)
    requires NoDuplicates(keys) && IntKeys(keys)
    ensures NoDuplicates(Values(keys))
  {
    forall i, j | 0 <= i < j < |keys| ensures Values(keys)[i] != Values(keys)[j] {
      assert keys[i] in keys && keys[j] in keys;
    }
  }

  /**
   * The keys `sync` attaches: each distinct key, in order of first
   * appearance, whose value is not loosely equal to an attached id.
   */
  function AttachKeys(current: set<TagId>, keys: seq<SyncKey>): (r: seq<SyncKey>)
    ensures NoDuplicates(r)
    ensures forall k :: k in r <==> k in keys && KeyValue(k) !in current
    decreases |keys|
  {
    if |keys| == 0 then []
    else
      var init := keys[..|keys| - 1];
      var k := keys[|keys| - 1];
      assert keys == init + [k];
      var p := AttachKeys(current, init);
      if KeyValue(k) in current || k in p then p else p + [k]
  }

  /** The pivot rows `attach` inserts for `ids`. */
  function Rows(e: Entity, ids: seq<TagId>): (r: seq<Link>)
    ensures forall l :: l in r <==> l.entity == e && l.tag in ids
    ensures NoDuplicates(ids) ==> NoDuplicates(r)
  {
    var r := seq(|ids|, k requires 0 <= k < |ids| => Link(e, ids[k]));
    assert forall l: Link :: l.entity == e && l.tag in ids ==> l in r by {
      forall l: Link | l.entity == e && l.tag in ids ensures l in r {
        var k :| 0 <= k < |ids| && ids[k] == l.tag;
        assert r[k] == l;
      }
    }
    r
  }

  /**
   * The relation's `sync($keys)`. An attached id is kept only when an
   * integer key equals it, as the detach list is an `array_diff`, which
   * compares ids and keys as strings; every key whose value is not
   * attached yet is attached, as `attachNew` tests membership with a
   * loose `in_array`. With integer keys only this makes the tags exactly
   * the listed ids and repeats no pivot row.
   */
  function SyncLinks(links: seq<Link>, e: Entity, keys: seq<SyncKey>): (r: seq<Link>)
    ensures forall id :: id in TagsOf(r, e) <==>
      if id in TagsOf(links, e) then IntKey(id) in keys else id in Values(keys)
    ensures forall l: Link :: l.entity != e ==> (l in r <==> l in links)
    ensures NoDuplicates(links) && IntKeys(keys) ==> NoDuplicates(r)
  {
    var current := TagsOf(links, e);
    var kept := Detach(links, e, set c | c in current && IntKey(c) !in keys);
    var newKeys := AttachKeys(current, keys);
    var added := Rows(e, Values(newKeys));
    var r := kept + added;
    forall id ensures id in TagsOf(r, e) <==> if id in current then IntKey(id) in keys else id in Values(keys) {
      TagsOfMember(r, e, id);
      TagsOfMember(links, e, id);
      if id !in current && id in Values(keys) {
        var k :| k in keys && KeyValue(k) == id;
        assert k in newKeys;
      }
    }
    assert NoDuplicates(links) && IntKeys(keys) ==> NoDuplicates(r) by {
      if NoDuplicates(links) && IntKeys(keys) {
        ValuesNoDuplicates(newKeys);
        forall l | l in kept ensures l !in added {
          if l.entity == e {
            TagsOfMember(links, e, l.tag);
          }
        }
        NoDuplicatesConcat(kept, added);
      }
    }
    r
  }

  /**
   * One entry of the list given to syncTags: a numeric entry is passed on
   * as an array key, any other entry names a tag.
   */
  datatype Token = NumericToken(key: SyncKey) | NameToken(name: string)

  /**
   * The `is_numeric($tag)` decision of syncTags. A numeric entry is passed
   * to `sync` unconverted, so it becomes an integer key only when it is
   * the canonical spelling of its value.
   */
  function Classify(s: string): (r: Token)
    ensures r.NameToken? ==> r.name == s
    ensures r.NumericToken? && r.key.IntKey? ==> s == PhpText.IntText(r.key.id)
    ensures r.NumericToken? && r.key.StrKey? ==> r.key.raw == s
    ensures (forall k :: 0 <= k < |s| ==> !PhpText.IsDigit(s[k])) ==> r == NameToken(s)
    ensures r.NumericToken? <==> PhpText.NumericId(s).Some?
    ensures r.NumericToken? ==> KeyValue(r.key) == PhpText.NumericId(s).value
  {
    match PhpText.NumericId(s)
    case Some(n) => NumericToken(if PhpText.IntegerKey(s) then IntKey(n) else StrKey(s, n))
    case None => NameToken(s)
  }

  /** The canonical spelling of a 64-bit integer is an integer key for it. */
  lemma CanonicalIdIsIntKey(n: int)
    requires -PhpText.IntMax - 1 <= n <= PhpText.IntMax
    ensures Classify(PhpText.IntText(n)) == NumericToken(IntKey(n))
  {
    PhpText.IntTextIsIntegerKey(n);
  }

  /** An id written with a leading zero is a string key standing for that id. */
  lemma PaddedIdIsStrKey(n: nat)
    requires n <= PhpText.IntMax
    ensures Classify("0" + PhpText.IntText(n)) == NumericToken(StrKey("0" + PhpText.IntText(n), n))
  {
    PhpText.PaddedId(n);
  }

  /** Every entry of a list, classified. */
  function Classified(ss: seq<string>): (r: seq<Token>)
    ensures |r| == |ss|
    ensures forall k :: 0 <= k < |ss| ==> r[k] == Classify(ss[k])
  {
    seq(|ss|, k requires 0 <= k < |ss| => Classify(ss[k]))
  }

  /** An entry that reaches `sync` as an integer key: a name, or the canonical spelling of an id. */
  predicate PlainToken(tok: Token)
  {
    tok.NumericToken? ==> tok.key.IntKey?
  }

  /** A list without padded numeric entries. */
  predicate PlainIds(toks: seq<Token>)
  {
    forall k :: 0 <= k < |toks| ==> PlainToken(toks[k])
  }

  /**
   * One step of the token map in syncTags: a numeric entry is kept as its
   * key, a name is looked up or created and gives its tag's id, which is
   * the tag's position plus one.
   */
  function ResolveTag(tags: seq<string>, tok: Token): (r: (seq<string>, SyncKey))
  {
    match tok
    case NumericToken(key) => (tags, key)
    case NameToken(name) =>
      var f := FirstOrCreate(tags, name);
      (f.0, IntKey(f.1 + 1))
  }

  /**
   * The token map of syncTags over the tag table: the grown table and one
   * key per token, in token order.
   */
  function ResolveTags(tags: seq<string>, toks: seq<Token>): (r: (seq<string>, seq<SyncKey>))
    ensures tags <= r.0
    ensures |r.1| == |toks|
    decreases |toks|
  {
    if |toks| == 0 then (tags, [])
    else
      var p := ResolveTags(tags, toks[..|toks| - 1]);
      var q := ResolveTag(p.0, toks[|toks| - 1]);
      (q.0, p.1 + [q.1])
  }

  /** Resolving one more entry extends the previous resolution by that entry's step. */
  lemma ResolveTagsStep(tags: seq<string>, toks: seq<Token>, i: nat)
    requires i < |toks|
    ensures var p := ResolveTags(tags, toks[..i]);
      ResolveTags(tags, toks[..i + 1]) == (ResolveTag(p.0, toks[i]).0, p.1 + [ResolveTag(p.0, toks[i]).1])
  {
    assert toks[..i + 1][..i] == toks[..i];
  }

  /**
   * `key` is what `tok` stands for against `table`: a numeric entry's own
   * key, or the id of the first tag bearing the name.
   */
  predicate Resolves(table: seq<string>, tok: Token, key: SyncKey)
  {
    match tok
    case NumericToken(k) => key == k
    case NameToken(name) => IndexOf(table, name).Some? && key == IntKey(IndexOf(table, name).value + 1)
  }

  /** What a token resolves to stays so as the tag table grows. */
  lemma ResolvesGrows(table: seq<string>, bigger: seq<string>, tok: Token, key: SyncKey)
    requires table <= bigger && Resolves(table, tok, key)
    ensures Resolves(bigger, tok, key)
  {
    if tok.NameToken? {
      IndexOfExtended(table, bigger, tok.name);
    }
  }

  /** Token `k` resolves to key `k` of the result. */
  lemma {:induction false} ResolvedId(tags: seq<string>, toks: seq<Token>, k: nat)
    requires k < |toks|
    ensures var r := ResolveTags(tags, toks); Resolves(r.0, toks[k], r.1[k])
    decreases |toks|
  {
    var init := toks[..|toks| - 1];
    var p := ResolveTags(tags, init);
    var r := ResolveTags(tags, toks);
    if k < |toks| - 1 {
      ResolvedId(tags, init, k);
      assert init[k] == toks[k];
      ResolvesGrows(p.0, r.0, toks[k], r.1[k]);
    } else if toks[k].NameToken? {
      var f := FirstOrCreate(p.0, toks[k].name);
      assert toks[k].name in f.0;
    }
  }

  /** A list without padded numeric entries resolves to integer keys only. */
  lemma ResolvedPlain(tags: seq<string>, toks: seq<Token>)
    requires PlainIds(toks)
    ensures IntKeys(ResolveTags(tags, toks).1)
  {
    var r := ResolveTags(tags, toks);
    forall key | key in r.1 ensures key.IntKey? {
      var k :| 0 <= k < |r.1| && r.1[k] == key;
      ResolvedId(tags, toks, k);
    }
  }

  /**
   * The names the table gains are names given in the list that no earlier
   * tag bore; a table without repeated names keeps none.
   */
  lemma {:induction false} ResolvedNewNames(tags: seq<string>, toks: seq<Token>)
    ensures forall k :: |tags| <= k < |ResolveTags(tags, toks).0| ==> ResolveTags(tags, toks).0[k] !in tags
    ensures forall k :: |tags| <= k < |ResolveTags(tags, toks).0| ==> NameToken(ResolveTags(tags, toks).0[k]) in toks
    ensures NoDuplicates(tags) ==> NoDuplicates(ResolveTags(tags, toks).0)
    decreases |toks|
  {
    if |toks| > 0 {
      var init := toks[..|toks| - 1];
      var tok := toks[|toks| - 1];
      assert toks == init + [tok];
      ResolvedNewNames(tags, init);
      var p := ResolveTags(tags, init);
      var r := ResolveTags(tags, toks);
      forall k | |tags| <= k < |r.0|
        ensures r.0[k] !in tags && NameToken(r.0[k]) in toks
      {
        if k < |p.0| {
          assert r.0[k] == p.0[k];
          assert NameToken(p.0[k]) in init;
        } else {
          assert tok.NameToken? && r.0[k] == tok.name && tok.name !in p.0;
          assert tags <= p.0;
        }
      }
    }
  }

  /** `$model->syncTags($tokens)` on the whole store, the entries already classified. */
  function SyncSpec(t: Tables, e: Entity, toks: seq<Token>): (r: Tables)
    ensures r.authors == t.authors && r.books == t.books && r.checkouts == t.checkouts
    ensures t.tags <= r.tags
    ensures forall k :: |t.tags| <= k < |r.tags| ==> r.tags[k] !in t.tags && NameToken(r.tags[k]) in toks
    ensures forall l: Link :: l.entity != e ==> (l in r.links <==> l in t.links)
  {
    var res := ResolveTags(t.tags, toks);
    ResolvedNewNames(t.tags, toks);
    t.(tags := res.0, links := SyncLinks(t.links, e, res.1))
  }

  /**
   * syncTags keeps one tag per name, and repeats no pivot row when the list
   * has no padded numeric entry.
   */
  lemma SyncValid(t: Tables, e: Entity, toks: seq<Token>)
    requires UniqueRows(t)
    ensures UniqueRows(SyncSpec(t, e, toks))
    ensures Valid(t) && PlainIds(toks) ==> Valid(SyncSpec(t, e, toks))
  {
    ResolvedNewNames(t.tags, toks);
    if PlainIds(toks) {
      ResolvedPlain(t.tags, toks);
    }
  }

  /**
   * Every entry stands for a key against the new tag table, and the id of
   * an entry that is a name or a canonical id ends up attached.
   */
  lemma SyncAttachesEntry(t: Tables, e: Entity, toks: seq<Token>, k: nat)
    requires k < |toks|
    ensures var r := SyncSpec(t, e, toks);
      exists key :: Resolves(r.tags, toks[k], key) && (PlainToken(toks[k]) ==> KeyValue(key) in TagsOf(r.links, e))
  {
    var res := ResolveTags(t.tags, toks);
    ResolvedId(t.tags, toks, k);
    var key := res.1[k];
    assert key in res.1;
    if PlainToken(toks[k]) {
      var links := SyncSpec(t, e, toks).links;
      assert links == SyncLinks(t.links, e, res.1);
      assert key == IntKey(KeyValue(key));
      assert KeyValue(key) in Values(res.1);
      assert KeyValue(key) in TagsOf(links, e);
    }
  }

  /**
   * A padded numeric entry ("007") ends up attached exactly when its id was
   * not attached before or another entry stands for that id as an integer
   * key.
   */
  lemma SyncPaddedEntry(t: Tables, e: Entity, toks: seq<Token>, k: nat)
    requires k < |toks| && !PlainToken(toks[k])
    ensures var r := SyncSpec(t, e, toks); var v := toks[k].key.value;
      v in TagsOf(r.links, e) <==>
        v !in TagsOf(t.links, e) || exists j :: 0 <= j < |toks| && Resolves(r.tags, toks[j], IntKey(v))
  {
    var res := ResolveTags(t.tags, toks);
    var v := toks[k].key.value;
    ResolvedId(t.tags, toks, k);
    assert res.1[k] in res.1 && KeyValue(res.1[k]) == v;
    if IntKey(v) in res.1 {
      var j :| 0 <= j < |toks| && res.1[j] == IntKey(v);
      ResolvedId(t.tags, toks, j);
    }
    forall j | 0 <= j < |toks| && Resolves(res.0, toks[j], IntKey(v)) ensures IntKey(v) in res.1 {
      ResolvedId(t.tags, toks, j);
      assert res.1[j] == IntKey(v);
    }
  }

  /** Nothing but what the entries stand for ends up attached. */
  lemma SyncAttachesOnlyEntries(t: Tables, e: Entity, toks: seq<Token>, id: TagId)
    requires id in TagsOf(SyncSpec(t, e, toks).links, e)
    ensures exists k, key :: 0 <= k < |toks| && Resolves(SyncSpec(t, e, toks).tags, toks[k], key) && KeyValue(key) == id
  {
    var res := ResolveTags(t.tags, toks);
    var key :| key in res.1 && KeyValue(key) == id;
    var k :| 0 <= k < |toks| && res.1[k] == key;
    ResolvedId(t.tags, toks, k);
  }

  /** One entry resolved again against a table holding the first resolution's table gives the same key. */
  lemma ResolveTagStable(tags: seq<string>, tok: Token, table: seq<string>)
    requires ResolveTag(tags, tok).0 <= table
    ensures ResolveTag(table, tok) == (table, ResolveTag(tags, tok).1)
  {
    if tok.NameToken? {
      var f := FirstOrCreate(tags, tok.name);
      assert IndexOf(f.0, tok.name) == Some(f.1);
      IndexOfExtended(f.0, table, tok.name);
    }
  }

  /** A second resolution against a table that already holds the first one's names changes nothing. */
  lemma {:induction false} ResolveTagsStable(tags: seq<string>, toks: seq<Token>, table: seq<string>)
    requires ResolveTags(tags, toks).0 <= table
    ensures ResolveTags(table, toks) == (table, ResolveTags(tags, toks).1)
    decreases |toks|
  {
    if |toks| > 0 {
      var init, last := toks[..|toks| - 1], toks[|toks| - 1];
      var p := ResolveTags(tags, init);
      var q := ResolveTag(p.0, last);
      assert ResolveTags(tags, toks) == (q.0, p.1 + [q.1]);
      assert p.0 <= q.0;
      ResolveTagsStable(tags, init, table);
      ResolveTagStable(p.0, last, table);
    }
  }

  /** Nothing is attached when every listed value is attached already. */
  lemma AttachKeysCovered(current: set<TagId>, keys: seq<SyncKey>)
    requires forall k :: k in keys ==> KeyValue(k) in current
    ensures AttachKeys(current, keys) == []
  {
    if AttachKeys(current, keys) != [] {
      assert AttachKeys(current, keys)[0] in AttachKeys(current, keys);
    }
  }

  /** Syncing links to the same integer keys twice is syncing them once. */
  lemma SyncLinksIdempotent(links: seq<Link>, e: Entity, keys: seq<SyncKey>)
    requires IntKeys(keys)
    ensures SyncLinks(SyncLinks(links, e, keys), e, keys) == SyncLinks(links, e, keys)
  {
    var once := SyncLinks(links, e, keys);
    var current := TagsOf(once, e);
    assert (set c | c in current && IntKey(c) !in keys) == {};
    assert Detach(once, e, {}) == once;
    forall k | k in keys ensures KeyValue(k) in current {
      assert k == IntKey(k.id);
    }
    AttachKeysCovered(current, keys);
    assert once + Rows(e, Values([])) == once;
  }

  /**
   * Calling syncTags twice with the same list leaves the tag table as
   * calling it once, and the whole store too when the list has no padded
   * numeric entry.
   */
  lemma SyncIdempotent(t: Tables, e: Entity, toks: seq<Token>)
    ensures SyncSpec(SyncSpec(t, e, toks), e, toks).tags == SyncSpec(t, e, toks).tags
    ensures PlainIds(toks) ==> SyncSpec(SyncSpec(t, e, toks), e, toks) == SyncSpec(t, e, toks)
  {
    var res := ResolveTags(t.tags, toks);
    ResolveTagsStable(t.tags, toks, res.0);
    if PlainIds(toks) {
      ResolvedPlain(t.tags, toks);
      SyncLinksIdempotent(t.links, e, res.1);
    }
  }

  /**
   * Syncing to a single numeric entry that stays a string key ("007")
   * flips whether its id is attached, so a second identical sync undoes
   * the first.
   */
  lemma StrKeySyncFlips(t: Tables, e: Entity, tok: Token)
    requires !PlainToken(tok)
    ensures var r := SyncSpec(t, e, [tok]); var v := tok.key.value;
      && (v in TagsOf(r.links, e) <==> v !in TagsOf(t.links, e))
      && TagsOf(SyncSpec(r, e, [tok]).links, e) != TagsOf(r.links, e)
  {
    var toks := [tok];
    assert ResolveTags(t.tags, toks).1 == [tok.key];
    var r := SyncSpec(t, e, toks);
    assert ResolveTags(r.tags, toks).1 == [tok.key];
    assert KeyValue(tok.key) in Values([tok.key]);
  }

  /** Syncing to two distinct keys of one value, neither attached yet, attaches that value twice. */
  lemma TwoKeysRepeatRow(links: seq<Link>, e: Entity, a: SyncKey, b: SyncKey)
    requires a != b && KeyValue(a) == KeyValue(b) && KeyValue(a) !in TagsOf(links, e)
    ensures !NoDuplicates(SyncLinks(links, e, [a, b]))
  {
    var keys := [a, b];
    var current := TagsOf(links, e);
    assert keys[..1] == [a] && [a][..0] == [];
    assert AttachKeys(current, [a]) == [a];
    assert AttachKeys(current, keys) == keys;
    var kept := Detach(links, e, set c | c in current && IntKey(c) !in keys);
    var r := SyncLinks(links, e, keys);
    assert r == kept + Rows(e, Values(keys));
    assert r[|kept|] == r[|kept| + 1];
  }

  /**
   * Syncing a model to two numeric entries that spell the same id
   * differently ("7" and "007"), the id not attached yet, attaches it twice.
   */
  lemma SameIdTwiceRepeatsRow(t: Tables, e: Entity, a: Token, b: Token)
    requires a.NumericToken? && b.NumericToken? && a.key != b.key
    requires KeyValue(a.key) == KeyValue(b.key) && KeyValue(a.key) !in TagsOf(t.links, e)
    ensures !NoDuplicates(SyncSpec(t, e, [a, b]).links)
  {
    var toks := [a, b];
    assert toks[..1] == [a];
    assert ResolveTags(t.tags, toks).1 == [a.key, b.key];
    TwoKeysRepeatRow(t.links, e, a.key, b.key);
  }

  /** `$model->addTag($tag)`: attaches the tag unless it is attached already. */
  method AddTag(db: Database, e: Entity, tag: TagId)
    modifies db
    ensures db.links == if Link(e, tag) in old(db.links) then old(db.links) else old(db.links) + [Link(e, tag)]
    ensures db.View() == old(db.View()).(links := db.links)
    ensures TagsOf(db.links, e) == TagsOf(old(db.links), e) + {tag}
    ensures forall l: Link :: l.entity != e ==> (l in db.links <==> l in old(db.links))
    ensures NoDuplicates(old(db.links)) ==> NoDuplicates(db.links)
  {
    if !HasTag(db, e, tag) {
      db.links := db.links + [Link(e, tag)];
    }
    forall t ensures t in TagsOf(db.links, e) <==> t in TagsOf(old(db.links), e) + {tag} {
      TagsOfMember(db.links, e, t);
      TagsOfMember(old(db.links), e, t);
    }
  }

  /** `$model->removeTag($tag)`: detaches the tag if it is attached. */
  method RemoveTag(db: Database, e: Entity, tag: TagId)
    modifies db
    ensures db.links == if Link(e, tag) in old(db.links) then Detach(old(db.links), e, {tag}) else old(db.links)
    ensures db.View() == old(db.View()).(links := db.links)
    ensures TagsOf(db.links, e) == TagsOf(old(db.links), e) - {tag}
    ensures forall l: Link :: l.entity != e ==> (l in db.links <==> l in old(db.links))
    ensures NoDuplicates(old(db.links)) ==> NoDuplicates(db.links)
  {
    if HasTag(db, e, tag) {
      db.links := Detach(db.links, e, {tag});
    }
    forall t ensures t in TagsOf(db.links, e) <==> t in TagsOf(old(db.links), e) - {tag} {
      TagsOfMember(db.links, e, t);
      TagsOfMember(old(db.links), e, t);
    }
  }

  /** `$model->clearTags()`: detaches every tag of the model. */
  method ClearTags(db: Database, e: Entity)
    modifies db
    ensures db.links == Detach(old(db.links), e, TagsOf(old(db.links), e))
    ensures db.View() == old(db.View()).(links := db.links)
    ensures TagsOf(db.links, e) == {}
    ensures forall l: Link :: l.entity != e ==> (l in db.links <==> l in old(db.links))
    ensures NoDuplicates(old(db.links)) ==> NoDuplicates(db.links)
  {
    db.links := Detach(db.links, e, TagsOf(db.links, e));
    forall t ensures t !in TagsOf(db.links, e) {
      TagsOfMember(db.links, e, t);
      TagsOfMember(old(db.links), e, t);
    }
  }

  /** The closure syncTags maps over its list: a numeric entry as it is, a name through `Tag::firstOrCreate`. */
  method ResolveToken(db: Database, tok: Token) returns (key: SyncKey)
    modifies db
    ensures (db.tags, key) == ResolveTag(old(db.tags), tok)
    ensures db.View() == old(db.View()).(tags := db.tags)
  {
    match tok {
      case NumericToken(k) =>
        key := k;
      case NameToken(name) =>
        var found := FirstOrCreate(db.tags, name);
        db.tags := found.0;
        key := IntKey(found.1 + 1);
    }
  }

  /**
   * `$model->syncTags($tokens)`: maps every token to an array key, creating
   * tags by name as it goes, then syncs the model's tags to those keys.
   */
  method SyncTags(db: Database, e: Entity, tokens: seq<string>)
    modifies db
    ensures db.View() == SyncSpec(old(db.View()), e, Classified(tokens))
  {
    ghost var toks := Classified(tokens);
    var keys: seq<SyncKey> := [];
    for i := 0 to |tokens|
      invariant (db.tags, keys) == ResolveTags(old(db.tags), toks[..i])
      invariant db.View() == old(db.View()).(tags := db.tags)
    {
      ResolveTagsStep(old(db.tags), toks, i);
      var key := ResolveToken(db, Classify(tokens[i]));
      keys := keys + [key];
    }
    assert toks[..|tokens|] == toks;
    db.links := SyncLinks(db.links, e, keys);
  }
}
