/**
 * The chained state root commits to the whole history.
 *
 * First the byte layout of one link: it is injective although the kind has no length prefix.
 * Then the chain, for an arbitrary hash function: equal roots mean equal entries, or two
 * distinct preimages of the chains collide. Finally the ledger: the hashed state roots of two
 * histories that replay are equal only if the account commitments and the receipt logs are, or
 * again two preimages collide.
 */
module StateRoots {
  import Base
  import opened Encodings
  import opened Digests
  import opened LedgerModel

  const CHAIN_TAG: string := "peal-links/v1/state"
  const GENESIS_TAG: string := "peal-links/v1/state-genesis"

  function Ascii(s: string): (b: Bytes)
    ensures |b| == |s|
  {
    seq(|s|, i requires 0 <= i < |s| => s[i] as int % 256)
  }

  /** What one link of the chain hashes besides its predecessor. */
  datatype Entry = Entry(seqNo: nat, kind: Bytes, account: Word, com: Word, receipt: Word, receiptRoot: Word)

  function LinkPreimage(prev: Word, e: Entry): Bytes {
    Ascii(CHAIN_TAG) + prev + LittleEndian(e.seqNo, 8) + e.kind + e.account + e.com + e.receipt + e.receiptRoot
  }

  function GenesisPreimage(namespace: Word, circuitId: Word): Bytes {
    Ascii(GENESIS_TAG) + namespace + circuitId
  }

  lemma TagLengths()
    ensures |CHAIN_TAG| == 19 && |GENESIS_TAG| == 27
  {
  }

  lemma SplitEqual<T>(a: seq<T>, b: seq<T>, c: seq<T>, d: seq<T>)
    requires a + b == c + d && |a| == |c|
    ensures a == c && b == d
  {
    assert a == (a + b)[..|a|] && c == (c + d)[..|c|];
    assert b == (a + b)[|a|..] && d == (c + d)[|c|..];
  }

  /**
   * Both ends of the layout have fixed width, so the length of the whole fixes the width of
   * the kind and every field reads back.
   */
  lemma LinkInjective(p: Word, d: Entry, q: Word, e: Entry)
    requires d.seqNo < U64 && e.seqNo < U64
    ensures LinkPreimage(p, d) == LinkPreimage(q, e) <==> p == q && d == e
  {
    if LinkPreimage(p, d) == LinkPreimage(q, e) {
      var tag := Ascii(CHAIN_TAG);
      var s, t := LittleEndian(d.seqNo, 8), LittleEndian(e.seqNo, 8);
      assert |d.kind| == |e.kind|;
      SplitEqual(tag + p + s + d.kind + d.account + d.com + d.receipt, d.receiptRoot,
                 tag + q + t + e.kind + e.account + e.com + e.receipt, e.receiptRoot);
      SplitEqual(tag + p + s + d.kind + d.account + d.com, d.receipt,
                 tag + q + t + e.kind + e.account + e.com, e.receipt);
      SplitEqual(tag + p + s + d.kind + d.account, d.com, tag + q + t + e.kind + e.account, e.com);
      SplitEqual(tag + p + s + d.kind, d.account, tag + q + t + e.kind, e.account);
      SplitEqual(tag + p + s, d.kind, tag + q + t, e.kind);
      SplitEqual(tag + p, s, tag + q, t);
      SplitEqual(tag, p, tag, q);
      Base.PowerOf64();
      LittleEndianInjective(d.seqNo, e.seqNo, 8);
    }
  }

  /** The bytes are the characters of a text. */
  ghost predicate Reads(bytes: Bytes, text: string) {
    |bytes| == |text| && forall i | 0 <= i < |text| :: bytes[i] == text[i] as int
  }

  lemma AsciiReads(s: string)
    requires forall i | 0 <= i < |s| :: s[i] as int < 128
    ensures Reads(Ascii(s), s)
  {
  }

  lemma TagsRead()
    ensures Reads(Ascii(CHAIN_TAG), "peal-links/v1/state") && Reads(Ascii(GENESIS_TAG), "peal-links/v1/state-genesis")
    ensures Reads(Ascii("register"), "register") && Reads(Ascii("op"), "op") && Reads(Ascii("mint"), "mint")
  {
    hide Ascii, Reads;
    AsciiReads(CHAIN_TAG);
    AsciiReads(GENESIS_TAG);
    AsciiReads("register");
    AsciiReads("op");
    AsciiReads("mint");
  }

  /** Where every field of a link stands: from the front up to the kind, and from the back down to it. */
  lemma LinkReads(prev: Word, e: Entry)
    ensures var b := LinkPreimage(prev, e);
            var n := |b|;
            && n == 187 + |e.kind|
            && Reads(b[..19], "peal-links/v1/state") && b[19..51] == prev && b[51..59] == LittleEndian(e.seqNo, 8)
            && b[59..n - 128] == e.kind && b[n - 128..n - 96] == e.account && b[n - 96..n - 64] == e.com
            && b[n - 64..n - 32] == e.receipt && b[n - 32..] == e.receiptRoot
  {
    TagLengths();
    TagsRead();
    hide Ascii, Reads, LittleEndian;
    var tag, s := Ascii(CHAIN_TAG), LittleEndian(e.seqNo, 8);
    var front := tag + prev + s;
    var back := e.account + e.com + e.receipt + e.receiptRoot;
    assert LinkPreimage(prev, e) == front + e.kind + back;
    assert |front| == 59 && front[..19] == tag && front[19..51] == prev && front[51..59] == s;
    assert |back| == 128 && back[..32] == e.account && back[32..64] == e.com && back[64..96] == e.receipt
        && back[96..] == e.receiptRoot;
    assert LinkPreimage(prev, e)[..19] == tag && LinkPreimage(prev, e)[59..59 + |e.kind|] == e.kind;
    assert LinkPreimage(prev, e)[59 + |e.kind|..] == back;
  }

  lemma GenesisReads(namespace: Word, circuitId: Word)
    ensures var b := GenesisPreimage(namespace, circuitId);
            && |b| == 91 && Reads(b[..27], "peal-links/v1/state-genesis")
            && b[27..59] == namespace && b[59..] == circuitId
  {
    TagLengths();
    TagsRead();
    hide Ascii, Reads;
    assert GenesisPreimage(namespace, circuitId)[..27] == Ascii(GENESIS_TAG);
  }

  /** No link preimage is a genesis preimage. */
  lemma GenesisApart(p: Word, e: Entry, namespace: Word, circuitId: Word)
    ensures LinkPreimage(p, e) != GenesisPreimage(namespace, circuitId)
  {
    TagLengths();
    assert |LinkPreimage(p, e)| > |GenesisPreimage(namespace, circuitId)|;
  }

  /** The preimage whose hash is the state root after `entries`. */
  function LastPreimage(hash: Bytes -> Word, genesis: Bytes, entries: seq<Entry>): Bytes {
    if entries == [] then genesis
    else
      var n := |entries| - 1;
      LinkPreimage(hash(LastPreimage(hash, genesis, entries[..n])), entries[n])
  }

  /** Two chains hash distinct preimages to one digest, after `i` and `j` entries. */
  ghost predicate Collide(hash: Bytes -> Word, genesis: Bytes, a: seq<Entry>, b: seq<Entry>, i: nat, j: nat)
    requires i <= |a| && j <= |b|
  {
    var x, y := LastPreimage(hash, genesis, a[..i]), LastPreimage(hash, genesis, b[..j]);
    x != y && hash(x) == hash(y)
  }

  /** Somewhere along two chains distinct preimages are hashed to one digest. */
  ghost predicate ChainsCollide(hash: Bytes -> Word, genesis: Bytes, a: seq<Entry>, b: seq<Entry>) {
    exists i, j | 0 <= i <= |a| && 0 <= j <= |b| :: Collide(hash, genesis, a, b, i, j)
  }

  lemma CollideHere(hash: Bytes -> Word, genesis: Bytes, a: seq<Entry>, b: seq<Entry>)
    requires LastPreimage(hash, genesis, a) != LastPreimage(hash, genesis, b)
    requires hash(LastPreimage(hash, genesis, a)) == hash(LastPreimage(hash, genesis, b))
    ensures ChainsCollide(hash, genesis, a, b)
  {
    hide LastPreimage;
    assert a[..|a|] == a && b[..|b|] == b;
    assert Collide(hash, genesis, a, b, |a|, |b|);
  }

  lemma CollideBefore(hash: Bytes -> Word, genesis: Bytes, a: seq<Entry>, b: seq<Entry>, m: nat, n: nat)
    requires m <= |a| && n <= |b| && ChainsCollide(hash, genesis, a[..m], b[..n])
    ensures ChainsCollide(hash, genesis, a, b)
  {
    hide LastPreimage;
    var i, j :| 0 <= i <= m && 0 <= j <= n && Collide(hash, genesis, a[..m], b[..n], i, j);
    assert a[..m][..i] == a[..i] && b[..n][..j] == b[..j];
    assert Collide(hash, genesis, a, b, i, j);
  }

  /** Only the empty chain ends in the genesis preimage. */
  lemma GenesisOnly(hash: Bytes -> Word, namespace: Word, circuitId: Word, entries: seq<Entry>)
    requires LastPreimage(hash, GenesisPreimage(namespace, circuitId), entries) == GenesisPreimage(namespace, circuitId)
    ensures entries == []
  {
    hide LinkPreimage, GenesisPreimage;
    var g := GenesisPreimage(namespace, circuitId);
    if entries != [] {
      var n := |entries| - 1;
      GenesisApart(hash(LastPreimage(hash, g, entries[..n])), entries[n], namespace, circuitId);
    }
  }

  /** The last links of two chains that end in one preimage are one link. */
  lemma LastLinks(hash: Bytes -> Word, genesis: Bytes, a: seq<Entry>, b: seq<Entry>)
    requires a != [] && b != [] && a[|a| - 1].seqNo < U64 && b[|b| - 1].seqNo < U64
    requires LastPreimage(hash, genesis, a) == LastPreimage(hash, genesis, b)
    ensures a[|a| - 1] == b[|b| - 1]
    ensures hash(LastPreimage(hash, genesis, a[..|a| - 1])) == hash(LastPreimage(hash, genesis, b[..|b| - 1]))
  {
    hide LinkPreimage;
    LinkInjective(hash(LastPreimage(hash, genesis, a[..|a| - 1])), a[|a| - 1],
                  hash(LastPreimage(hash, genesis, b[..|b| - 1])), b[|b| - 1]);
  }

  /**
   * For any hash function at all: two chains from one genesis that end at the same root have
   * the same entries, or exhibit a collision among the preimages they hash.
   */
  lemma {:induction false} ChainBinds(
      hash: Bytes -> Word, namespace: Word, circuitId: Word, a: seq<Entry>, b: seq<Entry>)
    requires forall e | e in a || e in b :: e.seqNo < U64
    requires var g := GenesisPreimage(namespace, circuitId);
             hash(LastPreimage(hash, g, a)) == hash(LastPreimage(hash, g, b))
    ensures a == b || ChainsCollide(hash, GenesisPreimage(namespace, circuitId), a, b)
    decreases |a|
  {
    hide ChainsCollide, GenesisPreimage;
    var g := GenesisPreimage(namespace, circuitId);
    if LastPreimage(hash, g, a) != LastPreimage(hash, g, b) {
      CollideHere(hash, g, a, b);
    } else if a == [] {
      GenesisOnly(hash, namespace, circuitId, b);
    } else if b == [] {
      GenesisOnly(hash, namespace, circuitId, a);
    } else {
      var m, n := |a| - 1, |b| - 1;
      LastLinks(hash, g, a, b);
      ChainBinds(hash, namespace, circuitId, a[..m], b[..n]);
      if a[..m] == b[..n] {
        assert a == a[..m] + [a[m]] && b == b[..n] + [b[n]];
      } else {
        CollideBefore(hash, g, a, b, m, n);
      }
    }
  }

  // ---- the ledger -----------------------------------------------------------

  function Commitments(s: Store): map<Fr, Fr> {
    map a | a in s.accounts :: s.accounts[a].com
  }

  /** What the newest link says happened to the commitments and to the log. */
  ghost predicate LinkTells(s: Store, t: Store, link: StateRoot) {
    && link.Chain?
    && Commitments(t) == (if link.kind == KindMint then Commitments(s) else Commitments(s)[link.account := link.com])
    && t.receipts == (if link.kind == KindRegister then s.receipts else s.receipts + [link.receipt])
  }

  lemma StepLinks(cfg: Config, s: Store, env: Envelope)
    requires Step(cfg, s, env).0.Ok?
    ensures var t := Step(cfg, s, env).1;
            LinkTells(s, t, StateRootOf(cfg, t)) && StateRootOf(cfg, t).prev == StateRootOf(cfg, s)
  {
  }

  /**
   * Two ledgers of one configuration with equal state roots accepted equally many envelopes
   * and hold the same commitment for every account and the same receipt log.
   */
  lemma {:induction false} StateRootBinds(cfg: Config, a: seq<OpRow>, b: seq<OpRow>)
    requires Replay(cfg, a).Some? && Replay(cfg, b).Some?
    requires StateRootOf(cfg, Replay(cfg, a).value) == StateRootOf(cfg, Replay(cfg, b).value)
    ensures |a| == |b|
    ensures Commitments(Replay(cfg, a).value) == Commitments(Replay(cfg, b).value)
    ensures Replay(cfg, a).value.receipts == Replay(cfg, b).value.receipts
    decreases |a|
  {
    if a != [] {
      StepLinks(cfg, Replay(cfg, a[..|a| - 1]).value, a[|a| - 1].envelope);
    }
    if b != [] {
      StepLinks(cfg, Replay(cfg, b[..|b| - 1]).value, b[|b| - 1].envelope);
    }
    hide Step;
    if a != [] && b != [] {
      StateRootBinds(cfg, a[..|a| - 1], b[..|b| - 1]);
    }
  }

  // ---- the ledger's chain, hashed ---------------------------------------------

  function KindBytes(kind: Kind): Bytes {
    match kind
    case KindRegister => Ascii("register")
    case KindOp => Ascii("op")
    case KindMint => Ascii("mint")
  }

  lemma KindsApart(k: Kind, l: Kind)
    ensures KindBytes(k) == KindBytes(l) <==> k == l
  {
    assert |KindBytes(KindRegister)| == 8 && |KindBytes(KindOp)| == 2 && |KindBytes(KindMint)| == 4;
  }

  /** What a link hashes. */
  function EntryOf(enc: Fr -> Word, link: StateRoot): Entry
    requires link.Chain?
  {
    Entry(link.seqNo, KindBytes(link.kind), enc(link.account), enc(link.com), enc(link.receipt), enc(link.receiptRoot))
  }

  /** A stored root is the hash of a link whose every field stands where it belongs. */
  lemma StoredLink(hash: Bytes -> Word, enc: Fr -> Word, genesis: Bytes, root: StateRoot)
    requires root.Chain?
    ensures exists b :: Hashed(hash, enc, genesis, root) == hash(b)
              && LinkStands(b, enc, Hashed(hash, enc, genesis, root.prev), root)
  {
    TagsRead();
    hide LinkPreimage, Ascii, Reads;
    var e := EntryOf(enc, root);
    LinkReads(Hashed(hash, enc, genesis, root.prev), e);
  }

  /** Bytes that hold the fields of a link in their places. */
  ghost predicate LinkStands(b: Bytes, enc: Fr -> Word, prev: Word, link: StateRoot)
    requires link.Chain?
  {
    var n := |b|;
    var kind := match link.kind case KindRegister => "register" case KindOp => "op" case KindMint => "mint";
    && n == 187 + |kind|
    && Reads(b[..19], "peal-links/v1/state") && b[19..51] == prev && b[51..59] == LittleEndian(link.seqNo, 8)
    && Reads(b[59..n - 128], kind) && b[n - 128..n - 96] == enc(link.account) && b[n - 96..n - 64] == enc(link.com)
    && b[n - 64..n - 32] == enc(link.receipt) && b[n - 32..] == enc(link.receiptRoot)
  }

  /** The state root as the ledger stores it: the hash of the newest link over its predecessor's hash. */
  function Hashed(hash: Bytes -> Word, enc: Fr -> Word, genesis: Bytes, root: StateRoot): Word {
    if root.Genesis? then hash(genesis)
    else hash(LinkPreimage(Hashed(hash, enc, genesis, root.prev), EntryOf(enc, root)))
  }

  function EntriesOf(enc: Fr -> Word, root: StateRoot): seq<Entry> {
    if root.Genesis? then [] else EntriesOf(enc, root.prev) + [EntryOf(enc, root)]
  }

  lemma {:induction false} HashedIsLast(hash: Bytes -> Word, enc: Fr -> Word, genesis: Bytes, root: StateRoot)
    ensures Hashed(hash, enc, genesis, root) == hash(LastPreimage(hash, genesis, EntriesOf(enc, root)))
  {
    hide LinkPreimage;
    if root.Chain? {
      HashedIsLast(hash, enc, genesis, root.prev);
      var entries := EntriesOf(enc, root);
      assert entries[..|entries| - 1] == EntriesOf(enc, root.prev);
    }
  }

  function BaseOf(root: StateRoot): StateRoot {
    if root.Genesis? then root else BaseOf(root.prev)
  }

  /** The field elements a chain's links hash. */
  function FieldsOf(root: StateRoot): set<Fr> {
    if root.Genesis? then {}
    else FieldsOf(root.prev) + {root.account, root.com, root.receipt, root.receiptRoot}
  }

  /** Two different elements of a set have one encoding. */
  ghost predicate Ambiguous(enc: Fr -> Word, fields: set<Fr>) {
    exists x, y | x in fields && y in fields :: x != y && enc(x) == enc(y)
  }

  lemma AmbiguousMore(enc: Fr -> Word, fields: set<Fr>, more: set<Fr>)
    requires Ambiguous(enc, fields) && fields <= more
    ensures Ambiguous(enc, more)
  {
  }

  /** One entry is one link's, unless two of the elements they hash have one encoding. */
  lemma EntryFields(enc: Fr -> Word, x: StateRoot, y: StateRoot)
    requires x.Chain? && y.Chain? && EntryOf(enc, x) == EntryOf(enc, y)
    ensures x == y.(prev := x.prev) || Ambiguous(enc, FieldsOf(x) + FieldsOf(y))
  {
    KindsApart(x.kind, y.kind);
    var fields := FieldsOf(x) + FieldsOf(y);
    assert {x.account, x.com, x.receipt, x.receiptRoot} <= fields;
    assert {y.account, y.com, y.receipt, y.receiptRoot} <= fields;
  }

  /**
   * Over one genesis the entries are the chain, unless two field elements of the chains have
   * one encoding.
   */
  lemma {:induction false} EntriesInjective(enc: Fr -> Word, x: StateRoot, y: StateRoot)
    requires BaseOf(x) == BaseOf(y) && EntriesOf(enc, x) == EntriesOf(enc, y)
    ensures x == y || Ambiguous(enc, FieldsOf(x) + FieldsOf(y))
  {
    hide Ambiguous, EntryOf;
    if x.Chain? && y.Chain? {
      var a, b := EntriesOf(enc, x), EntriesOf(enc, y);
      var n := |a| - 1;
      assert a[..n] == EntriesOf(enc, x.prev) && b[..n] == EntriesOf(enc, y.prev);
      assert a[n] == b[n];
      EntryFields(enc, x, y);
      EntriesInjective(enc, x.prev, y.prev);
      if x.prev != y.prev {
        AmbiguousMore(enc, FieldsOf(x.prev) + FieldsOf(y.prev), FieldsOf(x) + FieldsOf(y));
      }
    }
  }

  /** A history's chain starts at its configuration and numbers its links like its rows. */
  lemma {:induction false} ChainOfReplay(cfg: Config, enc: Fr -> Word, rows: seq<OpRow>)
    requires Replay(cfg, rows).Some?
    ensures var root := ChainOf(cfg, rows);
            && BaseOf(root) == Genesis(cfg.namespace, cfg.circuitId)
            && |EntriesOf(enc, root)| == |rows|
            && forall i | 0 <= i < |rows| :: EntriesOf(enc, root)[i].seqNo == i + 1
  {
    hide EntryOf;
    if rows != [] {
      var n := |rows| - 1;
      ChainOfReplay(cfg, enc, rows[..n]);
      var s := Replay(cfg, rows[..n]).value;
      StepLinks(cfg, s, rows[n].envelope);
      RowsNumbered(cfg, rows[..n]);
      LinkNumbered(cfg, s, rows[n].envelope);
      EntryNumbered(enc, StateRootOf(cfg, Replay(cfg, rows).value));
    }
  }

  lemma LinkNumbered(cfg: Config, s: Store, env: Envelope)
    requires Step(cfg, s, env).0.Ok?
    ensures StateRootOf(cfg, Step(cfg, s, env).1).Chain? && StateRootOf(cfg, Step(cfg, s, env).1).seqNo == SeqOf(s) + 1
  {
  }

  lemma EntryNumbered(enc: Fr -> Word, link: StateRoot)
    requires link.Chain?
    ensures EntryOf(enc, link).seqNo == link.seqNo
  {
  }

  /**
   * For any hash function and any field encoding: chains over one genesis with one hash are one
   * chain, or exhibit a collision of the hash or of the encoding among what they hash.
   */
  lemma HashedChainsBind(hash: Bytes -> Word, enc: Fr -> Word, namespace: Word, circuitId: Word,
      x: StateRoot, y: StateRoot)
    requires BaseOf(x) == BaseOf(y)
    requires forall e | e in EntriesOf(enc, x) || e in EntriesOf(enc, y) :: e.seqNo < U64
    requires var g := GenesisPreimage(namespace, circuitId); Hashed(hash, enc, g, x) == Hashed(hash, enc, g, y)
    ensures || x == y
            || Ambiguous(enc, FieldsOf(x) + FieldsOf(y))
            || ChainsCollide(hash, GenesisPreimage(namespace, circuitId), EntriesOf(enc, x), EntriesOf(enc, y))
  {
    hide EntriesOf, Hashed, LastPreimage, ChainsCollide, Ambiguous, FieldsOf;
    var g := GenesisPreimage(namespace, circuitId);
    HashedIsLast(hash, enc, g, x);
    HashedIsLast(hash, enc, g, y);
    ChainBinds(hash, namespace, circuitId, EntriesOf(enc, x), EntriesOf(enc, y));
    if EntriesOf(enc, x) == EntriesOf(enc, y) {
      EntriesInjective(enc, x, y);
    }
  }

  /** Two histories rebuild the same commitment for every account and the same receipt log. */
  ghost predicate SameState(cfg: Config, a: seq<OpRow>, b: seq<OpRow>)
    requires Replay(cfg, a).Some? && Replay(cfg, b).Some?
  {
    && |a| == |b|
    && Commitments(Replay(cfg, a).value) == Commitments(Replay(cfg, b).value)
    && Replay(cfg, a).value.receipts == Replay(cfg, b).value.receipts
  }

  /** The chain of a history that replays. */
  ghost function ChainOf(cfg: Config, rows: seq<OpRow>): StateRoot
    requires Replay(cfg, rows).Some?
  {
    StateRootOf(cfg, Replay(cfg, rows).value)
  }

  /**
   * For any hash function and any field encoding: two histories of one configuration whose
   * hashed state roots are equal rebuild the same commitment for every account and the same
   * receipt log, or exhibit a collision of the hash among the preimages of their chains or of
   * the encoding among the field elements they hash.
   */
  lemma HashedRootBinds(hash: Bytes -> Word, enc: Fr -> Word, namespace: Word, circuitId: Word,
      cfg: Config, a: seq<OpRow>, b: seq<OpRow>)
    requires Replay(cfg, a).Some? && Replay(cfg, b).Some? && |a| < U64 && |b| < U64
    requires var g := GenesisPreimage(namespace, circuitId);
             Hashed(hash, enc, g, ChainOf(cfg, a)) == Hashed(hash, enc, g, ChainOf(cfg, b))
    ensures var x, y := ChainOf(cfg, a), ChainOf(cfg, b);
            || SameState(cfg, a, b)
            || Ambiguous(enc, FieldsOf(x) + FieldsOf(y))
            || ChainsCollide(hash, GenesisPreimage(namespace, circuitId), EntriesOf(enc, x), EntriesOf(enc, y))
  {
    hide Replay, Step, StateRootOf, EntriesOf, Hashed, ChainsCollide, Commitments, Ambiguous, FieldsOf, BaseOf,
         GenesisPreimage;
    ChainOfReplay(cfg, enc, a);
    ChainOfReplay(cfg, enc, b);
    HashedChainsBind(hash, enc, namespace, circuitId, ChainOf(cfg, a), ChainOf(cfg, b));
    if ChainOf(cfg, a) == ChainOf(cfg, b) {
      StateRootBinds(cfg, a, b);
    }
  }
}
