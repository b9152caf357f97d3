/** The chained hash table: buckets of heap nodes that behave as a map from strings to nodes. */
module HashTable {
  import opened Arithmetic
  import opened Widths
  import opened Wrappers

  /** The bytes of a C string, without the NUL. */
  type Str = s: seq<bv8> | 0 !in s witness []

  // ---------- sdbm ----------

  /** A char promoted to int and converted to uint32_t; whether char is signed is the platform's choice. */
  function Widen(c: bv8, signedChar: bool): u32 {
    if signedChar && c >= 0x80 then Low32(c as int - 256) else c as u32
  }

  /** One character: the shifts are multiplications, and the sum wraps. */
  function SdbmStep(h: u32, c: u32): u32 { Low32(c + Low32(h * 64) + Low32(h * 65536) - h) }

  /** The sdbm recurrence: multiply by 65599 and add. */
  lemma SdbmStepMultiplies(h: u32, c: u32)
    ensures SdbmStep(h, c) == Low32(h * 65599 + c)
  {
    var q := h * 64 / TWO_32 + h * 65536 / TWO_32;
    assert c + Low32(h * 64) + Low32(h * 65536) - h == h * 65599 + c - TWO_32 * q;
    LowShift(h * 65599 + c, q);
  }

  lemma LowShift(x: int, q: int)
    ensures Low32(x - TWO_32 * q) == Low32(x)
  {
    var k := x / TWO_32;
    assert x - TWO_32 * q == (k - q) * TWO_32 + x % TWO_32;
  }

  function SdbmFrom(h: u32, s: seq<bv8>, signedChar: bool): u32
    decreases |s|
  {
    if s == [] then h else SdbmFrom(SdbmStep(h, Widen(s[0], signedChar)), s[1..], signedChar)
  }

  function Sdbm(s: seq<bv8>, signedChar: bool): u32 { SdbmFrom(0, s, signedChar) }

  method HashSdbm(s: Str, signedChar: bool) returns (hash: u32)
    ensures hash == Sdbm(s, signedChar)
  {
    hash := 0;
    var i := 0;
    while i < |s|
      invariant 0 <= i <= |s|
      invariant SdbmFrom(hash, s[i..], signedChar) == Sdbm(s, signedChar)
    {
      assert s[i..][1..] == s[i + 1..];
      hash := SdbmStep(hash, Widen(s[i], signedChar));
      i := i + 1;
    }
    assert s[i..] == [];
  }

  // ---------- what the hash tells apart ----------

  /** The characters as the digits of a number to the base 65599. */
  function Polynomial(s: seq<bv8>, signedChar: bool): nat {
    if s == [] then 0
    else Polynomial(s[..|s| - 1], signedChar) * 65599 + Widen(s[|s| - 1], signedChar)
  }

  lemma {:induction false} FromSplit(h: u32, s: seq<bv8>, t: seq<bv8>, signedChar: bool)
    ensures SdbmFrom(h, s + t, signedChar) == SdbmFrom(SdbmFrom(h, s, signedChar), t, signedChar)
    decreases |s|
  {
    hide SdbmStep, Widen;
    if s == [] {
      assert s + t == t;
    } else {
      assert (s + t)[1..] == s[1..] + t;
      FromSplit(SdbmStep(h, Widen(s[0], signedChar)), s[1..], t, signedChar);
    }
  }

  lemma FromOne(h: u32, c: bv8, signedChar: bool)
    ensures SdbmFrom(h, [c], signedChar) == SdbmStep(h, Widen(c, signedChar))
  {
    hide SdbmStep, Widen;
    assert [c][1..] == [];
    assert SdbmFrom(SdbmStep(h, Widen(c, signedChar)), [], signedChar) == SdbmStep(h, Widen(c, signedChar));
  }

  /** The hash is that number in 32 bits. */
  lemma {:induction false} SdbmIsPolynomial(s: seq<bv8>, signedChar: bool)
    ensures Sdbm(s, signedChar) == Low32(Polynomial(s, signedChar))
    decreases |s|
  {
    hide SdbmStep, Widen, Low32;
    if s != [] {
      var most, c := s[..|s| - 1], Widen(s[|s| - 1], signedChar);
      assert most + [s[|s| - 1]] == s;
      SdbmIsPolynomial(most, signedChar);
      FromSplit(0, most, [s[|s| - 1]], signedChar);
      FromOne(Sdbm(most, signedChar), s[|s| - 1], signedChar);
      SdbmStepMultiplies(Low32(Polynomial(most, signedChar)), c);
      LowMultiply(Polynomial(most, signedChar), c);
    } else {
      LowZero();
    }
  }

  lemma LowZero()
    ensures Low32(0) == 0
  {
  }

  lemma LowMultiply(x: nat, c: nat)
    ensures Low32(Low32(x) * 65599 + c) == Low32(x * 65599 + c)
  {
    var q := x / TWO_32;
    assert x * 65599 + c == Low32(x) * 65599 + c - TWO_32 * (-(q * 65599));
    LowShift(Low32(x) * 65599 + c, -(q * 65599));
  }

  /** The multiplier is odd, so that a step can be undone. */
  lemma StepInverse(h: u32, c: u32)
    ensures Low32((SdbmStep(h, c) - c) * INVERSE) == h
  {
    SdbmStepMultiplies(h, c);
    var q := (h * 65599 + c) / TWO_32;
    assert (SdbmStep(h, c) - c) * INVERSE == h - TWO_32 * (q * INVERSE - h * WRAPS) by {
      assert SdbmStep(h, c) - c == h * 65599 - TWO_32 * q;
      assert 65599 * INVERSE == 1 + TWO_32 * WRAPS;
    }
    LowShift(h, q * INVERSE - h * WRAPS);
  }

  const INVERSE: nat := 2390421439
  const WRAPS: nat := 36510

  lemma StepTellsChars(h: u32, c: u32, d: u32)
    requires SdbmStep(h, c) == SdbmStep(h, d)
    ensures c == d
  {
    SdbmStepMultiplies(h, c);
    SdbmStepMultiplies(h, d);
    var x, y := (h * 65599 + c) / TWO_32, (h * 65599 + d) / TWO_32;
    assert c - d == TWO_32 * (x - y);
    Multiples(TWO_32, x - y);
  }

  lemma ByteBack(c: bv8)
    ensures 0 <= c as int < 256 && (c as int) as bv8 == c
  {
  }

  lemma LowOfByte(x: nat)
    requires x < 256
    ensures Low32(x - 256) == TWO_32 + x - 256
  {
  }

  lemma WidenTells(c: bv8, d: bv8, signedChar: bool)
    requires Widen(c, signedChar) == Widen(d, signedChar)
    ensures c == d
  {
    hide Low32;
    var x, y := c as int, d as int;
    ByteBack(c);
    ByteBack(d);
    LowOfByte(x);
    LowOfByte(y);
    assert x == y;
  }

  lemma {:induction false} FromInjective(h: u32, g: u32, s: seq<bv8>, signedChar: bool)
    requires SdbmFrom(h, s, signedChar) == SdbmFrom(g, s, signedChar)
    ensures h == g
    decreases |s|
  {
    hide SdbmStep, Widen, Low32;
    if s != [] {
      var c := Widen(s[0], signedChar);
      FromInjective(SdbmStep(h, c), SdbmStep(g, c), s[1..], signedChar);
      StepInverse(h, c);
      StepInverse(g, c);
    }
  }

  /** Strings that differ in one character never have the same hash. */
  lemma OneCharNeverCollides(before: seq<bv8>, c: bv8, d: bv8, after: seq<bv8>, signedChar: bool)
    requires c != d
    ensures Sdbm(before + [c] + after, signedChar) != Sdbm(before + [d] + after, signedChar)
  {
    hide SdbmStep, Widen;
    var h := Sdbm(before, signedChar);
    FromSplit(0, before + [c], after, signedChar);
    FromSplit(0, before + [d], after, signedChar);
    FromSplit(0, before, [c], signedChar);
    FromSplit(0, before, [d], signedChar);
    FromOne(h, c, signedChar);
    FromOne(h, d, signedChar);
    var g, f := SdbmStep(h, Widen(c, signedChar)), SdbmStep(h, Widen(d, signedChar));
    if SdbmFrom(g, after, signedChar) == SdbmFrom(f, after, signedChar) {
      FromInjective(g, f, after, signedChar);
      StepTellsChars(h, Widen(c, signedChar), Widen(d, signedChar));
      WidenTells(c, d, signedChar);
    }
  }

  /** Nothing hashes to 0, "ab" to 97 * 65599 + 98, and a byte from 128 up by its value less 256 where char
      is signed. */
  lemma KnownHashes()
    ensures Sdbm([], true) == 0 && Sdbm([], false) == 0
    ensures Sdbm([0x61, 0x62], true) == 6363201 && Sdbm([0x61, 0x62], false) == 6363201
    ensures Sdbm([0xe9], false) == 233 && Sdbm([0xe9], true) == 0x1_0000_0000 - 23
  {
    forall signedChar: bool
      ensures Sdbm([0x61, 0x62], signedChar) == 6363201
    {
      assert [0x61, 0x62] == [0x61] + [0x62];
      FromSplit(0, [0x61], [0x62], signedChar);
      FromOne(0, 0x61, signedChar);
      FromOne(97, 0x62, signedChar);
    }
    FromOne(0, 0xe9, true);
    FromOne(0, 0xe9, false);
  }

  // ---------- nodes and tables ----------

  class Node {
    const str: Str
    var next: Node?
    /** False once the memory has been freed. */
    var live: bool

    constructor (str: Str, next: Node?)
      ensures this.str == str && this.next == next && live
    {
      this.str := str;
      this.next := next;
      this.live := true;
    }
  }

  function NodesOf(chains: seq<seq<Node>>): set<Node> {
    set h, k | 0 <= h < |chains| && 0 <= k < |chains[h]| :: chains[h][k]
  }

  function At(chain: seq<Node>, k: nat): Node? {
    if k < |chain| then chain[k] else null
  }

  /** first leads through the next links to exactly the nodes of chain, all of them still allocated. */
  ghost predicate Linked(first: Node?, chain: seq<Node>)
    reads chain
  {
    && first == At(chain, 0)
    && (forall k :: 0 <= k < |chain| ==> chain[k].live && chain[k].next == At(chain, k + 1))
  }

  ghost predicate AllLinked(buckets: array<Node?>, chains: seq<seq<Node>>)
    reads buckets, NodesOf(chains)
  {
    |chains| == buckets.Length && forall h :: 0 <= h < |chains| ==> Linked(buckets[h], chains[h])
  }

  lemma LinkedCons(x: Node, first: Node?, chain: seq<Node>)
    requires Linked(first, chain) && x.live && x.next == first
    ensures Linked(x, [x] + chain)
  {
    var whole := [x] + chain;
    forall k | 0 <= k < |whole| ensures whole[k].live && whole[k].next == At(whole, k + 1) {
      if k > 0 { assert whole[k] == chain[k - 1] && chain[k - 1].next == At(chain, k); }
    }
  }

  function BucketOf(s: Str, n: nat, signedChar: bool): (h: nat)
    requires n > 0
    ensures h < n
  {
    Sdbm(s, signedChar) % n
  }

  /** The nodes of the chains are exactly the values of the index, each in the one bucket of its own
      string and nowhere else. */
  ghost predicate Represents(chains: seq<seq<Node>>, index: map<Str, Node>, n: nat, signedChar: bool)
    requires n > 0
  {
    && |chains| == n
    && (forall h, k :: 0 <= h < n && 0 <= k < |chains[h]| ==>
          var x := chains[h][k];
          h == BucketOf(x.str, n, signedChar) && x.str in index && index[x.str] == x)
    && (forall h, j, k :: 0 <= h < n && 0 <= j < k < |chains[h]| ==> chains[h][j] != chains[h][k])
    && (forall s :: s in index ==> index[s].str == s && index[s] in chains[BucketOf(s, n, signedChar)])
  }

  /** Every string of a table is in the one chain that its hash modulo the number of chains names, and in no
      other, and only once. */
  lemma OnePlaceOnly(chains: seq<seq<Node>>, index: map<Str, Node>, n: nat, signedChar: bool, s: Str) returns (k: nat)
    requires n > 0 && Represents(chains, index, n, signedChar) && s in index
    ensures |chains| == n && k < |chains[Sdbm(s, signedChar) % n]|
    ensures forall h, j :: 0 <= h < n && 0 <= j < |chains[h]| ==>
              (chains[h][j].str == s <==> h == Sdbm(s, signedChar) % n && j == k)
  {
    var g := BucketOf(s, n, signedChar);
    k :| 0 <= k < |chains[g]| && chains[g][k] == index[s];
    forall h, j | 0 <= h < n && 0 <= j < |chains[h]| && chains[h][j].str == s ensures h == g && j == k {
      assert h == BucketOf(chains[h][j].str, n, signedChar);
      assert chains[h][j] == chains[h][k];
    }
  }

  lemma BucketIs(s: Str, n: nat, signedChar: bool)
    requires n > 0
    ensures BucketOf(s, n, signedChar) == Sdbm(s, signedChar) % n
  {
  }

  /** What a search of its chain can find of a string. */
  lemma OnlyInItsChain(chains: seq<seq<Node>>, index: map<Str, Node>, n: nat, signedChar: bool, s: Str)
    requires n > 0 && Represents(chains, index, n, signedChar)
    ensures |chains| == n
    ensures var chain := chains[BucketOf(s, n, signedChar)];
            && (forall x :: x in chain && x.str == s ==> s in index && index[s] == x)
            && (s in index ==> index[s] in chain && index[s].str == s)
  {
  }

  lemma ChainLinked(buckets: array<Node?>, chains: seq<seq<Node>>, h: nat)
    requires AllLinked(buckets, chains) && h < |chains|
    ensures buckets.Length == |chains| && Linked(buckets[h], chains[h])
  {
  }

  lemma PushRepresents(chains: seq<seq<Node>>, index: map<Str, Node>, n: nat, signedChar: bool, x: Node)
    requires n > 0 && Represents(chains, index, n, signedChar) && x.str !in index
    ensures var h := BucketOf(x.str, n, signedChar);
            Represents(chains[h := [x] + chains[h]], index[x.str := x], n, signedChar)
  {
    hide BucketOf;
    var h := BucketOf(x.str, n, signedChar);
    var chains', index' := chains[h := [x] + chains[h]], index[x.str := x];
    forall s | s in index' ensures index'[s].str == s && index'[s] in chains'[BucketOf(s, n, signedChar)] {
      if s == x.str {
        assert chains'[h][0] == x;
      } else {
        assert index[s] in chains[BucketOf(s, n, signedChar)];
      }
    }
  }

  class Table {
    const table: array<Node?>
    const signedChar: bool
    /** False once the table, or its bucket array, has been freed. */
    var live: bool
    var bucketsLive: bool
    /** The chains, bucket by bucket, and the string to node map they represent. */
    ghost var chains: seq<seq<Node>>
    ghost var index: map<Str, Node>

    ghost predicate Valid()
      reads this, table, NodesOf(chains)
    {
      && live && bucketsLive
      && table.Length > 0
      && AllLinked(table, chains)
      && Represents(chains, index, table.Length, signedChar)
    }

    function Bucket(s: Str): (h: nat)
      requires table.Length > 0
      ensures h < table.Length
    {
      BucketOf(s, table.Length, signedChar)
    }

    constructor (n: nat, signedChar: bool)
      requires n > 0
      ensures Valid() && index == map[] && fresh(table) && table.Length == n
      ensures this.signedChar == signedChar
    {
      var buckets := new Node?[n](_ => null);
      table := buckets;
      this.signedChar := signedChar;
      live, bucketsLive := true, true;
      chains := seq(n, _ => []);
      index := map[];
    }
  }

  /** stress_hash_create; the flags say whether each calloc succeeds. */
  method Create(n: nat, signedChar: bool, okTable: bool, okBuckets: bool) returns (t: Table?)
    ensures (t != null) == (n != 0 && okTable && okBuckets)
    ensures t != null ==> fresh(t) && fresh(t.table) && t.Valid() && t.index == map[] && t.table.Length == n
  {
    if n == 0 || !okTable || !okBuckets {
      return null;
    }
    t := new Table(n, signedChar);
  }

  /** stress_hash_find: walk one chain. */
  method Find(first: Node?, str: Str, ghost chain: seq<Node>) returns (r: Node?)
    requires Linked(first, chain)
    ensures r != null ==> r in chain && r.str == str
    ensures r == null ==> forall k :: 0 <= k < |chain| ==> chain[k].str != str
  {
    var hash := first;
    ghost var k := 0;
    while hash != null
      invariant 0 <= k <= |chain|
      invariant hash == At(chain, k)
      invariant forall j :: 0 <= j < k ==> chain[j].str != str
      decreases |chain| - k
    {
      assert hash.live;
      if str == hash.str {
        return hash;
      }
      hash := hash.next;
      k := k + 1;
    }
    return null;
  }

  /** stress_hash_get: exactly the node the string was added with. */
  method Get(t: Table?, str: Option<Str>) returns (r: Node?)
    requires t != null ==> t.Valid()
    ensures t == null || str.None? ==> r == null
    ensures t != null && str.Some? ==> r == if str.value in t.index then t.index[str.value] else null
  {
    if t == null || str.None? {
      return null;
    }
    var sum := HashSdbm(str.value, t.signedChar);
    var h := sum % t.table.Length;
    assert h == t.Bucket(str.value);
    r := Find(t.table[h], str.value, t.chains[h]);
  }

  /** The end of stress_hash_add: a new node in front of its chain. */
  method Push(buckets: array<Node?>, h: nat, s: Str, ghost chains: seq<seq<Node>>) returns (r: Node)
    requires h < buckets.Length && AllLinked(buckets, chains)
    modifies buckets
    ensures fresh(r) && r.str == s && AllLinked(buckets, chains[h := [r] + chains[h]])
  {
    r := new Node(s, buckets[h]);
    LinkedCons(r, buckets[h], chains[h]);
    buckets[h] := r;
    ghost var after := chains[h := [r] + chains[h]];
    assert Linked(buckets[h], after[h]);
    forall g | 0 <= g < |chains| && g != h ensures Linked(buckets[g], after[g]) {
      assert old(Linked(buckets[g], chains[g]));
    }
  }

  method Insert(t: Table, h: nat, s: Str) returns (r: Node)
    requires t.Valid() && s !in t.index && h == t.Bucket(s)
    modifies t, t.table
    ensures t.Valid() && fresh(r) && t.index == old(t.index)[s := r]
    ensures t.chains == old(t.chains)[h := [r] + old(t.chains)[h]]
  {
    hide Represents, BucketOf;
    ghost var chains, index := t.chains, t.index;
    r := Push(t.table, h, s, chains);
    ghost var chains', index' := chains[h := [r] + chains[h]], index[s := r];
    assert Represents(chains', index', t.table.Length, t.signedChar) by {
      PushRepresents(chains, index, t.table.Length, t.signedChar, r);
    }
    t.chains := chains';
    t.index := index';
    assert AllLinked(t.table, chains');
  }

  /** The new node is in front of the chain that the hash names, and every other chain is as before. */
  ghost predicate PushedOnto(chains: seq<seq<Node>>, hash: nat, r: Node, after: seq<seq<Node>>) {
    && |chains| > 0
    && var h := hash % |chains|;
    after == chains[h := [r] + chains[h]]
  }

  /** What an add does to the map the table represents. */
  ghost function AfterAdd(index: map<Str, Node>, s: Str, ok: bool, x: Node): map<Str, Node> {
    if s in index || !ok then index else index[s := x]
  }

  /** stress_hash_add; ok says whether malloc succeeds. */
  method Add(t: Table?, str: Option<Str>, ok: bool) returns (r: Node?)
    requires t != null ==> t.Valid()
    modifies t, if t == null then {} else {t.table}
    ensures t == null || str.None? ==> r == null
    ensures t != null ==> t.Valid()
    ensures t != null && str.None? ==> t.index == old(t.index)
    ensures t != null && str.Some? && r == null ==> str.value !in old(t.index) && !ok && t.chains == old(t.chains)
    ensures t != null && str.Some? && str.value in old(t.index) ==>
              r == old(t.index)[str.value] && t.chains == old(t.chains)
    ensures t != null && str.Some? && str.value !in old(t.index) && ok ==> r != null && fresh(r)
    ensures t != null && str.Some? && str.value !in old(t.index) && ok ==>
              PushedOnto(old(t.chains), Sdbm(str.value, t.signedChar), r, t.chains)
    ensures t != null && str.Some? ==>
              t.index == if r == null then old(t.index) else AfterAdd(old(t.index), str.value, ok, r)
  {
    hide Represents, AllLinked, BucketOf, Sdbm, PushedOnto;
    if t == null || str.None? {
      return null;
    }
    r := AddString(t, str.value, ok);
  }

  /** The body of stress_hash_add once its arguments are there. */
  method AddString(t: Table, s: Str, ok: bool) returns (r: Node?)
    requires t.Valid()
    modifies t, t.table
    ensures t.Valid()
    ensures s in old(t.index) ==> r == old(t.index)[s]
    ensures s !in old(t.index) && !ok ==> r == null
    ensures s in old(t.index) || !ok ==> t.index == old(t.index) && t.chains == old(t.chains)
    ensures s !in old(t.index) && ok ==>
              && r != null && fresh(r) && t.index == old(t.index)[s := r]
              && PushedOnto(old(t.chains), Sdbm(s, t.signedChar), r, t.chains)
  {
    hide Represents, BucketOf;
    var sum := HashSdbm(s, t.signedChar);
    var h := sum % t.table.Length;
    BucketIs(s, t.table.Length, t.signedChar);
    OnlyInItsChain(t.chains, t.index, t.table.Length, t.signedChar, s);
    ChainLinked(t.table, t.chains, h);
    r := Find(t.table[h], s, t.chains[h]);
    if r != null {
      return;
    }
    if !ok {
      return null;
    }
    r := Insert(t, h, s);
  }

  // ---------- delete ----------

  /** free() of a node: only memory that is still allocated may be freed. */
  method Free(x: Node)
    requires x.live
    modifies x`live
    ensures !x.live
  {
    x.live := false;
  }

  /** Frees one chain; a next link is read before its node is freed. */
  method DeleteChain(first: Node?, ghost chain: seq<Node>)
    requires Linked(first, chain)
    requires forall j, k :: 0 <= j < k < |chain| ==> chain[j] != chain[k]
    modifies chain
    ensures forall k :: 0 <= k < |chain| ==> !chain[k].live
  {
    var hash := first;
    ghost var k := 0;
    while hash != null
      invariant 0 <= k <= |chain| && hash == At(chain, k)
      invariant forall j :: 0 <= j < k ==> !chain[j].live
      invariant forall j :: k <= j < |chain| ==> chain[j].live
      invariant forall j :: 0 <= j < |chain| ==> chain[j].next == At(chain, j + 1)
      decreases |chain| - k
    {
      assert hash.live;
      var next := hash.next;
      Free(hash);
      hash := next;
      k := k + 1;
    }
  }

  /** No node in two chains, nor twice in one. */
  ghost predicate Apart(chains: seq<seq<Node>>) {
    && (forall g, h, k :: 0 <= g < |chains| && 0 <= h < |chains| && g != h && 0 <= k < |chains[h]| ==>
          chains[h][k] !in chains[g])
    && (forall h, j, k :: 0 <= h < |chains| && 0 <= j < k < |chains[h]| ==> chains[h][j] != chains[h][k])
  }

  lemma ChainsApart(chains: seq<seq<Node>>, index: map<Str, Node>, n: nat, signedChar: bool)
    requires n > 0 && Represents(chains, index, n, signedChar)
    ensures Apart(chains)
  {
    forall g, h, k | 0 <= g < n && 0 <= h < n && g != h && 0 <= k < |chains[h]|
      ensures chains[h][k] !in chains[g]
    {
      forall j | 0 <= j < |chains[g]| ensures chains[g][j] != chains[h][k] {
        assert g == BucketOf(chains[g][j].str, n, signedChar);
        assert h == BucketOf(chains[h][k].str, n, signedChar);
      }
    }
  }

  method DeleteBuckets(buckets: array<Node?>, ghost chains: seq<seq<Node>>)
    requires AllLinked(buckets, chains) && Apart(chains)
    modifies NodesOf(chains)
    ensures forall h, k :: 0 <= h < |chains| && 0 <= k < |chains[h]| ==> !chains[h][k].live
  {
    var i := 0;
    while i < buckets.Length
      invariant 0 <= i <= buckets.Length
      invariant forall h :: i <= h < |chains| ==> Linked(buckets[h], chains[h])
      invariant forall h, k :: 0 <= h < i && 0 <= k < |chains[h]| ==> !chains[h][k].live
    {
      forall x | x in chains[i] ensures x in NodesOf(chains) {
        var k :| 0 <= k < |chains[i]| && chains[i][k] == x;
      }
      label before:
      DeleteChain(buckets[i], chains[i]);
      forall h | i < h < |chains| ensures Linked(buckets[h], chains[h]) {
        assert old@before(Linked(buckets[h], chains[h]));
        assert forall k :: 0 <= k < |chains[h]| ==> chains[h][k] !in chains[i];
      }
      i := i + 1;
    }
  }

  /** free() of the bucket array, which the table still leads to, and of the table. */
  method FreeBuckets(t: Table)
    requires t.live && t.bucketsLive
    modifies t`bucketsLive
    ensures !t.bucketsLive
  {
    t.bucketsLive := false;
  }

  method FreeTable(t: Table)
    requires t.live
    modifies t`live
    ensures !t.live
  {
    t.live := false;
  }

  /** stress_hash_delete: every node, then the bucket array and then the table is freed once. */
  method Delete(t: Table?)
    requires t != null ==> t.Valid()
    modifies t, if t == null then {} else NodesOf(t.chains)
    ensures t != null ==> !t.live && !t.bucketsLive && t.chains == old(t.chains)
    ensures t != null ==> forall x :: x in NodesOf(t.chains) ==> !x.live
  {
    if t == null {
      return;
    }
    ChainsApart(t.chains, t.index, t.table.Length, t.signedChar);
    DeleteBuckets(t.table, t.chains);
    FreeBuckets(t);
    FreeTable(t);
  }

  // ---------- any run of adds ----------

  /** One call of stress_hash_add: its string, whether malloc had memory for it, and the node malloc
      would give. */
  datatype AddCall = AddCall(str: Str, ok: bool, node: Node)

  ghost function AfterRun(index: map<Str, Node>, calls: seq<AddCall>): map<Str, Node>
    decreases |calls|
  {
    if calls == [] then index
    else var c := calls[0]; AfterRun(AfterAdd(index, c.str, c.ok, c.node), calls[1..])
  }

  /** Call i is the first add of s that had memory. */
  ghost predicate FirstAdd(calls: seq<AddCall>, s: Str, i: int) {
    && 0 <= i < |calls| && calls[i].str == s && calls[i].ok
    && forall j :: 0 <= j < i ==> !(calls[j].str == s && calls[j].ok)
  }

  /** After any sequence of adds the strings in the table are the old ones and those for which some
      add had memory; a string keeps the node it has, and otherwise gets that of the first add that
      had memory for it. */
  lemma {:induction false} RunOfAdds(index: map<Str, Node>, calls: seq<AddCall>, s: Str)
    ensures s in AfterRun(index, calls) <==>
              s in index || exists i :: 0 <= i < |calls| && calls[i].str == s && calls[i].ok
    ensures s in index ==> AfterRun(index, calls)[s] == index[s]
    ensures s !in index ==>
              forall i :: FirstAdd(calls, s, i) ==> AfterRun(index, calls)[s] == calls[i].node
    decreases |calls|
  {
    if calls != [] {
      var c, rest := calls[0], calls[1..];
      RunOfAdds(AfterAdd(index, c.str, c.ok, c.node), rest, s);
      forall i | 0 < i && FirstAdd(calls, s, i) ensures FirstAdd(rest, s, i - 1) {
        assert forall j :: 0 <= j < |rest| ==> rest[j] == calls[j + 1];
      }
      if s !in index && exists i :: 0 <= i < |calls| && calls[i].str == s && calls[i].ok {
        var i :| 0 <= i < |calls| && calls[i].str == s && calls[i].ok;
        if i > 0 { assert rest[i - 1].str == s && rest[i - 1].ok; }
      }
      if exists i :: 0 <= i < |rest| && rest[i].str == s && rest[i].ok {
        var i :| 0 <= i < |rest| && rest[i].str == s && rest[i].ok;
        assert calls[i + 1].str == s && calls[i + 1].ok;
      }
    }
  }
}
