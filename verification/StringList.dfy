/** REStringList: the strings of a character class. Those of one character are a set of code points; the others are in a
    hash table, whose chains are sequences here. */
module StringList {
  import opened Powers

  /** A string in a chain, with its hash. */
  datatype REString = REString(hash: nat, buf: seq<nat>)

  function HashFrom(h: nat, buf: seq<nat>): (r: nat)
    decreases |buf|
  {
    if buf == [] then h else HashFrom((h * 263 + buf[0]) % 0x1_0000_0000, buf[1..])
  }

  function Hash(buf: seq<nat>): (h: nat)
    ensures h < 0x1_0000_0000
  {
    HashFrom(1, buf) * 0x61C8_8647 % 0x1_0000_0000
  }

  /** re_string_hash */
  method StringHash(buf: seq<nat>) returns (h: nat)
    ensures h == Hash(buf)
  {
    h := 1;
    var i := 0;
    assert buf[0..] == buf;
    while i < |buf|
      invariant 0 <= i <= |buf| && HashFrom(h, buf[i..]) == HashFrom(1, buf)
    {
      assert buf[i..][0] == buf[i] && buf[i..][1..] == buf[i + 1..];
      h := (h * 263 + buf[i]) % 0x1_0000_0000;
      i := i + 1;
    }
    h := h * 0x61C8_8647 % 0x1_0000_0000;
  }

  /** The high bits of a hash select the chain. */
  function Bucket(hash: nat, bits: nat): (r: nat) {
    if bits > 32 then 0
    else
      PowPos(2, 32 - bits);
      DivNat(hash, Pow(2, 32 - bits));
      hash / Pow(2, 32 - bits)
  }

  lemma {:induction false} BucketBound(hash: nat, bits: nat)
    requires bits <= 32 && hash < 0x1_0000_0000
    ensures Bucket(hash, bits) < Pow(2, bits)
  {
    hide Pow;
    Pow2To32();
    PowAdd(2, bits, 32 - bits);
    PowPos(2, 32 - bits);
    DivMod(hash, Pow(2, 32 - bits));
    var q := hash / Pow(2, 32 - bits);
    if q >= Pow(2, bits) {
      MulLe(Pow(2, 32 - bits), Pow(2, bits), q);
    }
  }

  lemma {:induction false} Pow2To32()
    ensures Pow(2, 32) == 0x1_0000_0000
  {
    PowAdd(2, 16, 16);
    PowAdd(2, 8, 8);
    assert Pow(2, 8) == 256;
  }

  type Table = seq<seq<REString>>

  /** The entries of all chains. */
  function Flat(t: Table): (r: multiset<REString>) {
    if t == [] then multiset{} else multiset(t[0]) + Flat(t[1..])
  }

  lemma {:induction false} FlatSplit(t: Table, i: nat)
    requires i < |t|
    ensures Flat(t) == Flat(t[..i]) + multiset(t[i]) + Flat(t[i + 1..])
  {
    if i > 0 {
      FlatSplit(t[1..], i - 1);
      assert t[1..][..i - 1] == t[..i][1..] && t[1..][i - 1] == t[i] && t[1..][i..] == t[i + 1..];
    } else {
      assert t[..0] == [];
    }
  }

  /** Changing one chain. */
  lemma {:induction false} FlatUpdate(t: Table, i: nat, chain: seq<REString>)
    requires i < |t|
    ensures Flat(t[i := chain]) + multiset(t[i]) == Flat(t) + multiset(chain)
  {
    hide Flat;
    FlatSplit(t, i);
    FlatSplit(t[i := chain], i);
    assert t[i := chain][..i] == t[..i] && t[i := chain][i + 1..] == t[i + 1..];
  }

  lemma {:induction false} CancelEntries(a: multiset<REString>, b: multiset<REString>, c: multiset<REString>)
    requires a + c == b + c
    ensures a == b
  {
    forall e ensures a[e] == b[e] {
      assert (a + c)[e] == (b + c)[e];
    }
  }

  lemma {:induction false} FlatInsert(t: Table, i: nat, e: REString)
    requires i < |t|
    ensures Flat(t[i := [e] + t[i]]) == Flat(t) + multiset{e}
  {
    hide Flat;
    FlatUpdate(t, i, [e] + t[i]);
    assert multiset([e] + t[i]) == multiset{e} + multiset(t[i]);
    CancelEntries(Flat(t[i := [e] + t[i]]), Flat(t) + multiset{e}, multiset(t[i]));
  }

  lemma {:induction false} FlatRemove(t: Table, i: nat, k: nat)
    requires i < |t| && k < |t[i]|
    ensures Flat(t[i := t[i][..k] + t[i][k + 1..]]) == Flat(t) - multiset{t[i][k]} && t[i][k] in Flat(t)
  {
    hide Flat;
    var chain := t[i];
    FlatUpdate(t, i, chain[..k] + chain[k + 1..]);
    ChainInFlat(t, i, chain[k]);
    assert chain == chain[..k] + [chain[k]] + chain[k + 1..];
    assert multiset(chain) == multiset(chain[..k]) + multiset{chain[k]} + multiset(chain[k + 1..]);
    var rest := multiset(chain[..k] + chain[k + 1..]);
    assert rest == multiset(chain[..k]) + multiset(chain[k + 1..]);
    CancelEntries(Flat(t[i := chain[..k] + chain[k + 1..]]) + multiset{chain[k]}, Flat(t), rest);
  }

  lemma {:induction false} FlatEmpty(t: Table)
    requires forall i :: 0 <= i < |t| ==> t[i] == []
    ensures Flat(t) == multiset{}
  {
    if t != [] {
      FlatEmpty(t[1..]);
    }
  }

  lemma {:induction false} InSomeChain(t: Table, e: REString) returns (i: nat)
    requires e in Flat(t)
    ensures i < |t| && e in t[i]
  {
    if e in t[0] {
      i := 0;
    } else {
      i := InSomeChain(t[1..], e);
      i := i + 1;
    }
  }

  lemma {:induction false} ChainInFlat(t: Table, i: nat, e: REString)
    requires i < |t| && e in t[i]
    ensures e in Flat(t)
  {
    FlatSplit(t, i);
    assert e in multiset(t[i]);
  }

  ghost predicate InBucket(e: REString, i: nat, bits: nat) {
    |e.buf| != 1 && e.hash == Hash(e.buf) && Bucket(e.hash, bits) == i
  }

  /** Every entry is in the chain that its hash selects. */
  ghost predicate InBuckets(t: Table, bits: nat) {
    forall i, k :: 0 <= i < |t| && 0 <= k < |t[i]| ==> InBucket(t[i][k], i, bits)
  }

  ghost predicate NoDuplicates(m: multiset<REString>) {
    forall e :: e in m ==> m[e] == 1
  }

  function Bufs(m: multiset<REString>): (r: set<seq<nat>>) {
    set e | e in m :: e.buf
  }

  /** With no duplicates and the hashes right, there are as many strings as entries. */
  lemma {:induction false} CountBufs(m: multiset<REString>)
    requires NoDuplicates(m) && forall e :: e in m ==> e.hash == Hash(e.buf)
    ensures |Bufs(m)| == |m|
    decreases |m|
  {
    if m != multiset{} {
      var e :| e in m;
      var rest := m - multiset{e};
      CountBufs(rest);
      assert e.buf !in Bufs(rest);
      assert Bufs(m) == Bufs(rest) + {e.buf};
    }
  }

  lemma {:induction false} NoEntries(t: Table, bits: nat)
    requires forall i :: 0 <= i < |t| ==> t[i] == []
    ensures InBuckets(t, bits)
  {
  }

  lemma {:induction false} FlatHead(t: Table, i: nat)
    requires i < |t|
    ensures Flat(t[i..]) == multiset(t[i]) + Flat(t[i + 1..])
  {
    assert t[i..][0] == t[i] && t[i..][1..] == t[i + 1..];
  }

  /** An entry put in front of a chain is in its bucket exactly when it is the right chain. */
  lemma {:induction false} Inserted(t: Table, bits: nat, e: REString, h: nat)
    requires InBuckets(t, bits) && h < |t|
    ensures InBuckets(t[h := [e] + t[h]], bits) <==> InBucket(e, h, bits)
  {
    hide InBucket;
    var t1 := t[h := [e] + t[h]];
    if InBuckets(t1, bits) {
      assert t1[h][0] == e;
    }
    forall i, k | InBucket(e, h, bits) && 0 <= i < |t1| && 0 <= k < |t1[i]| ensures InBucket(t1[i][k], i, bits) {
      if i == h && k > 0 {
        assert t1[i][k] == t[i][k - 1];
      }
    }
  }

  lemma {:induction false} Sizes(bits: nat)
    ensures Pow(2, 4) == 16 && Pow(2, bits + 1) == 2 * Pow(2, bits)
  {
    assert Pow(2, 2) == 4;
  }

  /** The chain that an entry belongs to in a table of another size. */
  lemma {:induction false} NewChain(was: Table, wasBits: nat, i: nat, p: nat, bits: nat)
    requires InBuckets(was, wasBits) && i < |was| && p < |was[i]| && bits <= 32
    ensures var e := was[i][p]; Bucket(e.hash, bits) < Pow(2, bits) && InBucket(e, Bucket(e.hash, bits), bits)
  {
    hide Pow, Hash, Bucket;
    assert InBucket(was[i][p], i, wasBits);
    BucketBound(was[i][p].hash, bits);
  }

  /** The entries of one chain, moved to the chains of a larger table. */
  method MoveChain(t0: Table, bits: nat, was: Table, i: nat, ghost wasBits: nat) returns (t: Table)
    requires bits <= 32 && |t0| == Pow(2, bits) && InBuckets(t0, bits) && InBuckets(was, wasBits) && i < |was|
    ensures |t| == Pow(2, bits) && InBuckets(t, bits) && Flat(t) == Flat(t0) + multiset(was[i])
  {
    hide Pow, Flat, InBuckets, InBucket, Bucket;
    t := t0;
    var p := 0;
    assert was[i][..0] == [];
    while p < |was[i]|
      invariant 0 <= p <= |was[i]| && |t| == Pow(2, bits) && InBuckets(t, bits)
      invariant Flat(t) == Flat(t0) + multiset(was[i][..p])
    {
      var e := was[i][p];
      assert was[i][..p + 1] == was[i][..p] + [e];
      NewChain(was, wasBits, i, p, bits);
      var h := Bucket(e.hash, bits);
      FlatInsert(t, h, e);
      Inserted(t, bits, e, h);
      t := t[h := [e] + t[h]];
      p := p + 1;
    }
    assert was[i][..p] == was[i];
  }

  /** An entry taken out of a chain. */
  lemma {:induction false} Removed(t: Table, bits: nat, i: nat, k: nat)
    requires InBuckets(t, bits) && i < |t| && k < |t[i]|
    ensures InBuckets(t[i := t[i][..k] + t[i][k + 1..]], bits)
  {
    hide InBucket;
    var t1 := t[i := t[i][..k] + t[i][k + 1..]];
    forall j, l | 0 <= j < |t1| && 0 <= l < |t1[j]| ensures InBucket(t1[j][l], j, bits) {
      if j == i {
        assert t1[j][l] == t[j][if l < k then l else l + 1];
      }
    }
  }

  lemma {:induction false} FlatNext(t: Table, i: nat)
    requires i < |t|
    ensures Flat(t[..i + 1]) == Flat(t[..i]) + multiset(t[i])
  {
    FlatSplit(t[..i + 1], i);
    assert t[..i + 1][..i] == t[..i] && t[..i + 1][i + 1..] == [];
  }

  lemma {:induction false} PartOf(t: Table, i: nat, k: nat)
    requires i < |t| && k <= |t[i]|
    ensures |Flat(t[..i]) + multiset(t[i][..k])| <= |Flat(t)|
  {
    hide Flat;
    FlatSplit(t, i);
    assert t[i] == t[i][..k] + t[i][k..];
    assert multiset(t[i]) == multiset(t[i][..k]) + multiset(t[i][k..]);
    assert Flat(t) == (Flat(t[..i]) + multiset(t[i][..k])) + (multiset(t[i][k..]) + Flat(t[i + 1..]));
  }

  lemma {:induction false} BufsAdd(m: multiset<REString>, e: REString)
    ensures Bufs(m + multiset{e}) == Bufs(m) + {e.buf}
  {
    assert e in m + multiset{e};
    forall f | f in m ensures f in m + multiset{e} {
    }
  }

  datatype SetOp = Union | Inter | Sub

  function Apply<T(==)>(op: SetOp, a: set<T>, b: set<T>): (r: set<T>) {
    match op
    case Union => a + b
    case Inter => a * b
    case Sub => a - b
  }

  class REStringList {
    var cr: set<nat>
    var nStrings: nat
    var hashBits: nat
    var table: Table

    constructor ()
      ensures Valid() && CanAdd() && cr == {} && Strings() == {} && nStrings == 0 && table == []
    {
      cr := {};
      nStrings := 0;
      hashBits := 0;
      table := [];
    }

    ghost function Strings(): (r: set<seq<nat>>)
      reads this
    {
      Bufs(Flat(table))
    }

    /** The table has one chain for every value of the high bits of a hash. */
    ghost predicate Sized()
      reads this
    {
      if table == [] then hashBits == 0 && nStrings == 0 else 4 <= hashBits <= 31 && |table| == Pow(2, hashBits)
    }

    ghost predicate Valid()
      reads this
    {
      && Sized() && InBuckets(table, hashBits) && NoDuplicates(Flat(table)) && nStrings == |Flat(table)|
    }

    /** No string has been removed from the table, unless others are left. */
    ghost predicate CanAdd()
      reads this
    {
      nStrings != 0 || table == []
    }

    /** The number of strings is exact, and none of them has one character. */
    lemma {:induction false} ExactCount()
      requires Valid()
      ensures nStrings == |Strings()| && forall s :: s in Strings() ==> |s| != 1
    {
      hide Pow, Flat;
      forall e | e in Flat(table) ensures e.hash == Hash(e.buf) && |e.buf| != 1 {
        var i := InSomeChain(table, e);
        var k :| 0 <= k < |table[i]| && table[i][k] == e;
        assert InBucket(table[i][k], i, hashBits);
      }
      CountBufs(Flat(table));
    }

    /** A string that is in the table is in the chain its hash selects. */
    lemma {:induction false} InItsChain(buf: seq<nat>)
      requires Valid() && buf in Strings()
      ensures nStrings != 0 && Bucket(Hash(buf), hashBits) < |table|
      ensures REString(Hash(buf), buf) in table[Bucket(Hash(buf), hashBits)]
    {
      hide Pow, Flat;
      var e :| e in Flat(table) && e.buf == buf;
      var i := InSomeChain(table, e);
      var k :| 0 <= k < |table[i]| && table[i][k] == e;
      assert InBucket(table[i][k], i, hashBits);
    }

    /** The lookup of re_string_find2, which looks in one chain only. */
    method Lookup(buf: seq<nat>, h0: nat) returns (found: bool)
      requires Sized() && h0 == Hash(buf)
      ensures found <==> nStrings != 0 && Bucket(h0, hashBits) < |table| && REString(h0, buf) in table[Bucket(h0,
          hashBits)]
      ensures Valid() ==> (found <==> buf in Strings())
    {
      hide Flat, Pow, Hash, Bucket;
      found := false;
      ghost var e := REString(h0, buf);
      if nStrings != 0 {
        BucketBound(h0, hashBits);
        var h := Bucket(h0, hashBits);
        var p := 0;
        while p < |table[h]| && !found
          invariant 0 <= p <= |table[h]| && (found ==> e in table[h]) && (!found ==> e !in table[h][..p])
          decreases |table[h]| - p, !found
        {
          if table[h][p].hash == h0 && |table[h][p].buf| == |buf| && table[h][p].buf == buf {
            found := true;
          } else {
            p := p + 1;
          }
        }
        if found {
          ChainInFlat(table, h, e);
        } else {
          assert table[h][..|table[h]|] == table[h];
        }
      }
      if Valid() && buf in Strings() {
        InItsChain(buf);
      }
    }

    /** An emptied table. */
    lemma {:induction false} NoStrings()
      requires Valid() && Strings() == {}
      ensures nStrings == 0 && forall i :: 0 <= i < |table| ==> table[i] == []
    {
      hide Pow, Flat;
      ExactCount();
      assert forall e :: e in Flat(table) ==> e.buf in Strings();
      forall i | 0 <= i < |table| ensures table[i] == [] {
        if table[i] != [] {
          ChainInFlat(table, i, table[i][0]);
        }
      }
    }

    lemma {:induction false} NotEmpty()
      requires Valid() && nStrings != 0
      ensures table != []
    {
    }

    /** The table is made twice as large, and every entry is moved to its new chain. */
    method Grow()
      requires Valid() && hashBits < 31
      modifies this`hashBits, this`table
      ensures Valid() && table != [] && Strings() == old(Strings()) && Flat(table) == old(Flat(table))
      ensures |table| == if old(table) == [] then 16 else 2 * |old(table)|
      ensures old(table) == [] ==> hashBits == 4
    {
      Sizes(hashBits);
      hide Flat, Pow, InBuckets, NoDuplicates;
      ghost var all := Flat(table);
      var newHashBits := if hashBits + 1 > 4 then hashBits + 1 else 4;
      var was, wasBits := table, hashBits;
      var newHashTable: Table := seq(Pow(2, newHashBits), i => []);
      FlatEmpty(newHashTable);
      NoEntries(newHashTable, newHashBits);
      var i := 0;
      assert was[0..] == was;
      while i < |was|
        invariant 0 <= i <= |was| && |newHashTable| == Pow(2, newHashBits) && InBuckets(newHashTable, newHashBits)
        invariant Flat(newHashTable) + Flat(was[i..]) == Flat(was)
      {
        FlatHead(was, i);
        newHashTable := MoveChain(newHashTable, newHashBits, was, i, wasBits);
        i := i + 1;
      }
      FlatEmpty(was[i..]);
      assert newHashTable != [];
      hashBits, table := newHashBits, newHashTable;
      assert Flat(table) == all;
    }

    /** re_string_find2 with add_flag: the string is added unless it is there. It lands in its chain exactly when the
        table has a string, or has not been allocated, or the first chain happens to be the right one. */
    method Find2Add(buf: seq<nat>, h0: nat)
      requires Valid() && h0 == Hash(buf) && |buf| != 1 && nStrings < 0x4000_0000
      modifies this`nStrings, this`hashBits, this`table
      ensures Strings() == old(Strings()) + {buf}
      ensures Valid() <==> old(CanAdd()) || Bucket(h0, old(hashBits)) == 0
      ensures !Valid() ==> old(table) != [] && table == old(table)[0 := [REString(h0, buf)] + old(table)[0]]
      ensures Sized() && CanAdd() && table != [] && nStrings <= old(nStrings) + 1
      ensures old(table) == [] ==> hashBits == 4
      ensures old(nStrings) < |old(table)| ==> hashBits == old(hashBits)
    {
      hide Flat, Hash, InBuckets, Bucket, Pow;
      var found := Lookup(buf, h0);
      if found {
        InItsChain(buf);
        return;
      }
      ghost var before := Flat(table);
      var h := 0;
      if nStrings != 0 {
        NotEmpty();
        h := Bucket(h0, hashBits);
      }
      if nStrings + 1 > |table| {
        RoomToGrow();
        Grow();
        h := Bucket(h0, hashBits);
      }
      BucketBound(h0, hashBits);
      var e := REString(h0, buf);
      FlatInsert(table, h, e);
      Inserted(table, hashBits, e, h);
      table := table[h := [e] + table[h]];
      nStrings := nStrings + 1;
      assert Flat(table) == before + multiset{e};
    }

    lemma {:induction false} RoomToGrow()
      requires Valid() && nStrings + 1 > |table| && nStrings < 0x4000_0000
      ensures hashBits < 31
    {
      hide Pow, Flat;
      Pow2To32();
      if hashBits == 31 {
        PowAdd(2, 1, 31);
        PowOne(2);
      }
    }

    /** All strings, of one character or not. */
    ghost function Contents(): (r: set<seq<nat>>)
      reads this
    {
      (set c | c in cr :: [c]) + Strings()
    }

    /** re_string_add */
    method Add(buf: seq<nat>)
      requires Valid() && CanAdd() && nStrings < 0x4000_0000
      modifies this
      ensures Valid() && CanAdd() && Contents() == old(Contents()) + {buf}
      ensures |buf| != 1 && old(table) == [] ==> table != [] && hashBits == 4
    {
      hide Flat, Hash, Pow;
      if |buf| == 1 {
        cr := cr + {buf[0]};
        assert buf == [buf[0]];
        return;
      }
      var h0 := StringHash(buf);
      Find2Add(buf, h0);
    }

    /** The strings of b are added to this list. */
    method AddAll(b: REStringList)
      requires Valid() && CanAdd() && b.Valid() && b != this && nStrings + b.nStrings < 0x4000_0000
      modifies this`nStrings, this`hashBits, this`table
      ensures Valid() && CanAdd() && Strings() == old(Strings()) + b.Strings()
    {
      hide Flat, Hash, Pow, InBuckets, NoDuplicates, Sized, Bucket;
      ghost var n, start := nStrings, Strings();
      var i := 0;
      FlatEmpty(b.table[..0]);
      while i < |b.table|
        invariant 0 <= i <= |b.table| && Valid() && CanAdd()
        invariant Strings() == start + Bufs(Flat(b.table[..i]))
        invariant nStrings <= n + |Flat(b.table[..i])|
      {
        AddChain(b, i, start, n);
        i := i + 1;
      }
      assert b.table[..i] == b.table;
    }

    /** The strings of one chain of b. */
    method AddChain(b: REStringList, i: nat, ghost start: set<seq<nat>>, ghost n: nat)
      requires Valid() && CanAdd() && b.Valid() && b != this && n + b.nStrings < 0x4000_0000 && i < |b.table|
      requires Strings() == start + Bufs(Flat(b.table[..i])) && nStrings <= n + |Flat(b.table[..i])|
      modifies this`nStrings, this`hashBits, this`table
      ensures Valid() && CanAdd()
      ensures Strings() == start + Bufs(Flat(b.table[..i + 1])) && nStrings <= n + |Flat(b.table[..i + 1])|
    {
      hide Flat, Hash, Pow, InBuckets, NoDuplicates, Sized, Bucket, Bufs;
      var p := 0;
      assert b.table[i][..0] == [];
      assert Flat(b.table[..i]) + multiset([]) == Flat(b.table[..i]);
      ghost var done := Flat(b.table[..i]);
      while p < |b.table[i]|
        invariant 0 <= p <= |b.table[i]| && Valid() && CanAdd()
        invariant done == Flat(b.table[..i]) + multiset(b.table[i][..p])
        invariant Strings() == start + Bufs(done) && nStrings <= n + |done|
      {
        var e := b.table[i][p];
        PartOf(b.table, i, p);
        b.RightHash(i, p);
        assert b.table[i][..p + 1] == b.table[i][..p] + [e];
        BufsAdd(done, e);
        done := done + multiset{e};
        Find2Add(e.buf, e.hash);
        p := p + 1;
      }
      assert b.table[i][..p] == b.table[i];
      FlatNext(b.table, i);
    }

    lemma {:induction false} RightHash(i: nat, k: nat)
      requires Valid() && i < |table| && k < |table[i]|
      ensures table[i][k].hash == Hash(table[i][k].buf) && |table[i][k].buf| != 1
    {
      assert InBucket(table[i][k], i, hashBits);
    }

    /** Which entries an intersection with b, or a difference, keeps. */
    ghost predicate Keeps(b: REStringList, op: SetOp, e: REString)
      reads b
    {
      e.buf in b.Strings() <==> op == Inter
    }

    /** An entry is unlinked from its chain. */
    method Unlink(i: nat, k: nat)
      requires Valid() && i < |table| && k < |table[i]|
      modifies this`nStrings, this`table
      ensures Valid() && table == old(table)[i := old(table)[i][..k] + old(table)[i][k + 1..]]
      ensures Flat(table) == old(Flat(table)) - multiset{old(table)[i][k]}
      ensures forall e :: e in Flat(table) <==> e in old(Flat(table)) && e != old(table)[i][k]
    {
      hide Flat, Hash, Pow, InBuckets;
      ghost var was := Flat(table);
      FlatRemove(table, i, k);
      Removed(table, hashBits, i, k);
      table := table[i := table[i][..k] + table[i][k + 1..]];
      nStrings := nStrings - 1;
    }

    /** One chain, from which the entries not kept are unlinked. */
    method FilterChain(b: REStringList, op: SetOp, i: nat)
      requires Valid() && b.Valid() && b != this && op != Union && i < |table|
      modifies this`nStrings, this`table
      ensures Valid() && |table| == |old(table)|
      ensures forall j :: 0 <= j < |table| && j != i ==> table[j] == old(table)[j]
      ensures forall e :: e in table[i] ==> Keeps(b, op, e)
      ensures forall e :: e in Flat(table) ==> e in old(Flat(table))
      ensures forall e :: e in old(Flat(table)) && Keeps(b, op, e) ==> e in Flat(table)
    {
      hide Flat, Hash, Pow, InBuckets;
      var pp := 0;
      while pp < |table[i]|
        invariant Valid() && |table| == |old(table)| && 0 <= pp <= |table[i]|
        invariant forall j :: 0 <= j < |table| && j != i ==> table[j] == old(table)[j]
        invariant forall k :: 0 <= k < pp ==> Keeps(b, op, table[i][k])
        invariant forall e :: e in Flat(table) ==> e in old(Flat(table))
        invariant forall e :: e in old(Flat(table)) && Keeps(b, op, e) ==> e in Flat(table)
        decreases |table[i]| - pp
      {
        var p := table[i][pp];
        RightHash(i, pp);
        var ret := b.Lookup(p.buf, p.hash);
        if op == Sub {
          ret := !ret;
        }
        if !ret {
          Unlink(i, pp);
        } else {
          pp := pp + 1;
        }
      }
    }

    /** Every chain is filtered. */
    method FilterAll(b: REStringList, op: SetOp)
      requires Valid() && b.Valid() && b != this && op != Union
      modifies this`nStrings, this`table
      ensures Valid() && Strings() == Apply(op, old(Strings()), b.Strings()) && |table| == |old(table)|
    {
      hide Flat, Hash, Pow, InBuckets, Keeps;
      ghost var was := Flat(table);
      var i := 0;
      while i < |table|
        invariant Valid() && 0 <= i <= |table| == |old(table)|
        invariant forall j, e :: 0 <= j < i && e in table[j] ==> Keeps(b, op, e)
        invariant forall e :: e in Flat(table) ==> e in was
        invariant forall e :: e in was && Keeps(b, op, e) ==> e in Flat(table)
      {
        FilterChain(b, op, i);
        i := i + 1;
      }
      forall e | e in Flat(table) ensures Keeps(b, op, e) {
        var j := InSomeChain(table, e);
      }
      Filtered(was, b, op);
    }

    lemma {:induction false} Filtered(was: multiset<REString>, b: REStringList, op: SetOp)
      requires op != Union
      requires forall e :: e in Flat(table) <==> e in was && Keeps(b, op, e)
      ensures Strings() == Apply(op, Bufs(was), b.Strings())
    {
      hide Flat;
      var kept := Apply(op, Bufs(was), b.Strings());
      forall s | s in kept ensures s in Strings() {
        var e :| e in was && e.buf == s;
        assert Keeps(b, op, e);
      }
      forall s | s in Strings() ensures s in kept {
        var e :| e in Flat(table) && e.buf == s;
        assert Keeps(b, op, e);
      }
    }

    /** re_string_list_op */
    method Combine(b: REStringList, op: SetOp)
      requires Valid() && b.Valid() && b != this
      requires op == Union ==> CanAdd() && nStrings + b.nStrings < 0x4000_0000
      modifies this
      ensures Valid()
      ensures op == Union ==> cr == old(cr) + b.cr && Strings() == old(Strings()) + b.Strings()
      ensures op == Union ==> Contents() == old(Contents()) + b.Contents()
      ensures op == Inter ==> cr == old(cr) * b.cr && Strings() == old(Strings()) * b.Strings()
      ensures op == Inter ==> Contents() == old(Contents()) * b.Contents()
      ensures op == Sub ==> cr == old(cr) - b.cr && Strings() == old(Strings()) - b.Strings()
      ensures op == Sub ==> Contents() == old(Contents()) - b.Contents()
      ensures op != Union ==> hashBits == old(hashBits) && |table| == |old(table)|
    {
      hide Flat, Bufs, InBuckets, NoDuplicates, Pow;
      ExactCount();
      b.ExactCount();
      Combined(op, cr, b.cr, Strings(), b.Strings());
      cr := Apply(op, cr, b.cr);
      if op == Union {
        AddAll(b);
      } else {
        FilterAll(b, op);
      }
    }
  }

  /** Strings of one character are apart from the others. */
  lemma {:induction false} Combined(op: SetOp, a: set<nat>, b: set<nat>, s: set<seq<nat>>, t: set<seq<nat>>)
    requires (forall x :: x in s ==> |x| != 1) && forall x :: x in t ==> |x| != 1
    ensures (set c | c in Apply(op, a, b) :: [c]) + Apply(op, s, t)
         == Apply(op, (set c | c in a :: [c]) + s, (set c | c in b :: [c]) + t)
  {
    var left := (set c | c in Apply(op, a, b) :: [c]) + Apply(op, s, t);
    var right := Apply(op, (set c | c in a :: [c]) + s, (set c | c in b :: [c]) + t);
    forall x ensures x in left <==> x in right {
      if |x| == 1 {
        assert x == [x[0]];
        assert x in left <==> x[0] in Apply(op, a, b);
      }
    }
  }

  /** Why strings should not be added to a table from which all have been removed: the empty string is added, taken out
      by a difference, and added again; it is one of the strings then, but it is not found. */
  method EmptiedTable() returns (a: REStringList, found: bool)
    ensures [] in a.Strings() && !found && !a.Valid()
  {
    hide Hash, Flat, Bucket, Pow, InBuckets;
    EmptyStringChain();
    a := new REStringList();
    a.Add([]);
    var b := new REStringList();
    b.Add([]);
    assert [] in b.Contents() && a.Contents() == {[]};
    a.Combine(b, Sub);
    a.NoStrings();
    var h0 := StringHash([]);
    a.Find2Add([], h0);
    assert Bucket(h0, a.hashBits) == 6;
    found := a.Lookup([], h0);
  }

  lemma {:induction false} EmptyStringChain()
    ensures Bucket(Hash([]), 4) == 6
  {
    PowAdd(2, 14, 14);
    assert Pow(2, 14) == 16384;
    DivUnique(0x61C8_8647, 0x1000_0000, 6, 0x1C8_8647);
  }
}
