/** `build_prop_table` of the generator: from a property to its run-length table and index. */
module PropertyBuilder {
  import opened PropertyTables

  const CHARCODE_MAX := 0x10FFFF

  // ----- runs -----

  /** Whether the characters behind the runs belong to the set. */
  function BitAfter(runs: seq<nat>, bit: bool): bool {
    if |runs| % 2 == 0 then bit else !bit
  }

  lemma {:induction false} MemberPush(runs: seq<nat>, n: nat, code: nat, bit: bool, c: nat)
    ensures Sum(runs + [n]) == Sum(runs) + n
    ensures code <= c ==>
              Member(runs + [n], code, bit, c) ==
              if c < code + Sum(runs) then Member(runs, code, bit, c) else c < code + Sum(runs) + n && BitAfter(runs, bit)
  {
    if runs == [] {
      assert [n][1..] == [] && runs + [n] == [n];
      assert Sum([n]) == n + Sum([]);
    } else {
      assert (runs + [n])[1..] == runs[1..] + [n];
      MemberPush(runs[1..], n, code + runs[0], !bit, c);
    }
  }

  predicate AllPositive(runs: seq<nat>) {
    forall i | 0 <= i < |runs| :: 1 <= runs[i] <= CHARCODE_MAX + 1
  }

  /** The lengths of the runs of characters with and without the property, without the last if it has none. */
  method RunsOf(prop: int -> bool) returns (runs: seq<nat>)
    requires !prop(0)
    ensures forall c: nat :: Member(runs, 0, false, c) == (c <= CHARCODE_MAX && prop(c))
    ensures AllPositive(runs) && Sum(runs) <= CHARCODE_MAX + 1
  {
    hide Member, Sum;
    runs := [];
    NoRuns();
    var i: nat := 0;
    while i <= CHARCODE_MAX
      invariant i <= CHARCODE_MAX + 1 && Sum(runs) == i && AllPositive(runs)
      invariant forall c: nat | c < i :: Member(runs, 0, false, c) == prop(c)
      invariant forall c: nat | i <= c :: !Member(runs, 0, false, c)
      invariant i <= CHARCODE_MAX ==> prop(i) == BitAfter(runs, false)
    {
      var v := prop(i);
      var j := i + 1;
      while j <= CHARCODE_MAX && prop(j) == v
        invariant i < j <= CHARCODE_MAX + 1 && forall c | i <= c < j :: prop(c) == v
      {
        j := j + 1;
      }
      if j == CHARCODE_MAX + 1 && !v {
        break;
      }
      var longer := runs + [j - i];
      forall c: nat ensures Member(longer, 0, false, c) == if c < i then Member(runs, 0, false, c) else c < j && v {
        MemberPush(runs, j - i, 0, false, c);
      }
      MemberPush(runs, j - i, 0, false, 0);
      assert BitAfter(longer, false) == !BitAfter(runs, false);
      assert j <= CHARCODE_MAX ==> prop(j) != v;
      runs := longer;
      i := j;
    }
  }

  lemma NoRuns()
    ensures Sum([]) == 0 && forall c: nat :: !Member([], 0, false, c)
  {
  }

  // ----- bytes -----

  /** The item written for the first of the runs, or the first two. */
  function Item(runs: seq<nat>): (r: (seq<Byte>, nat))
    requires runs != [] && AllPositive(runs)
    ensures 1 <= |r.0| <= 3 && 1 <= r.1 <= 2 && r.1 <= |runs|
  {
    var v: int := runs[0] - 1;
    if v < 8 && |runs| > 1 && runs[1] - 1 < 8 then ([v * 8 + runs[1] - 1], 2)
    else if v < 128 then ([0x80 + v], 1)
    else if v < 0x2000 then ([0x40 + v / 256, v % 256], 1)
    else ([0x60 + v / 65536, v / 256 % 256, v % 256], 1)
  }

  /** Reading an item gives the runs it was written for. */
  lemma ItemReads(runs: seq<nat>, table: seq<Byte>, p: nat)
    requires runs != [] && AllPositive(runs)
    requires var (b, k) := Item(runs); p + |b| <= |table| && table[p..p + |b|] == b
    ensures var (b, k) := Item(runs); Size(table[p]) == |b| && RunsAt(table, p) == runs[..k]
  {
    var (b, k) := Item(runs);
    var v: int := runs[0] - 1;
    forall i | 0 <= i < |b| ensures table[p + i] == b[i] {
      assert table[p..p + |b|][i] == table[p + i];
    }
    assert table[p + 0] == table[p];
    if k == 2 {
      assert runs[..2] == [runs[0], runs[1]];
    } else {
      assert runs[..1] == [runs[0]];
      assert v == v / 65536 * 65536 + v / 256 % 256 * 256 + v % 256;
    }
  }

  /** An item behind a table. */
  lemma {:induction false} AppendItem(table: seq<Byte>, b: seq<Byte>, p: nat)
    requires Whole(table, p) && b != [] && Size(b[0]) == |b|
    ensures Whole(table + b, p) && Runs(table + b, p) == Runs(table, p) + RunsAt(table + b, |table|)
    decreases |table| - p
  {
    hide RunsAt, Size;
    var t := table + b;
    if p == |table| {
      assert t[p] == b[0];
      EndOfTable(t);
      assert Runs(t, p) == RunsAt(t, p) + Runs(t, |t|);
    } else {
      assert t[p] == table[p];
      var q := p + Size(table[p]);
      AppendItem(table, b, q);
      SameItem(table, b, p);
      assert RunsAt(t, p) + (Runs(table, q) + RunsAt(t, |table|)) == RunsAt(t, p) + Runs(table, q) + RunsAt(t, |table|);
    }
  }

  lemma EndOfTable(table: seq<Byte>)
    ensures Whole(table, |table|) && Runs(table, |table|) == []
  {
  }

  lemma SameItem(table: seq<Byte>, b: seq<Byte>, p: nat)
    requires p < |table| && p + Size(table[p]) <= |table|
    ensures (table + b)[p] == table[p] && RunsAt(table + b, p) == RunsAt(table, p)
  {
    var t := table + b;
    forall i | p <= i < |table| ensures t[i] == table[i] {
    }
  }

  /** A place that reading leads to stays so. */
  lemma {:induction false} AppendLeads(table: seq<Byte>, b: seq<Byte>, p: nat, code: nat, bit: bool, q: nat, code': nat)
    requires Whole(table, p) && Whole(table + b, p) && Leads(table, p, code, bit, q, code')
    ensures Leads(table + b, p, code, bit, q, code')
    decreases |table| - p
  {
    hide RunsAt, Size, Sum;
    if p != q {
      SameItem(table, b, p);
      var runs := RunsAt(table, p);
      AppendLeads(table, b, p + Size(table[p]), code + Sum(runs), if |runs| == 1 then !bit else bit, q, code');
    }
  }

  /** Reading leads to the end of the table, if the last run is one of characters with the property. */
  lemma {:induction false} LeadsEnd(table: seq<Byte>, p: nat, code: nat, bit: bool)
    requires Whole(table, p) && !BitAfter(Runs(table, p), bit)
    ensures Leads(table, p, code, bit, |table|, code + Sum(Runs(table, p)))
    decreases |table| - p
  {
    hide RunsAt, Size, Sum;
    if p == |table| {
      NoRuns();
    } else {
      var runs, q := RunsAt(table, p), p + Size(table[p]);
      SumJoin(runs, Runs(table, q));
      LeadsEnd(table, q, code + Sum(runs), if |runs| == 1 then !bit else bit);
    }
  }

  // ----- table and index -----

  function Le24Bytes(v: nat): seq<Byte> {
    [v % 256, v / 256 % 256, v / 65536 % 256]
  }

  lemma Le24Last(index: seq<Byte>, v: nat, n: nat)
    requires |index| == 3 * n && v < 0x100_0000
    ensures Le24(index + Le24Bytes(v), n) == v && forall k: nat | k < n :: Le24(index + Le24Bytes(v), k) == Le24(index, k)
  {
    assert v == v % 256 + v / 256 % 256 * 256 + v / 65536 % 256 * 65536;
  }

  /** The entries written so far name places where reading may start. */
  ghost predicate Indexed(table: seq<Byte>, index: seq<Byte>, n: nat) {
    Whole(table, 0) && |index| == 3 * n
    && forall k: nat | k < n :: Leads(table, 0, 0, false, (k + 1) * BLOCK + Le24(index, k) / CODES, Le24(index, k) % CODES)
  }

  lemma IndexedMore(table: seq<Byte>, index: seq<Byte>, n: nat, code: nat)
    requires Indexed(table, index, n) && !BitAfter(Runs(table, 0), false) && code == Sum(Runs(table, 0)) < CODES
    requires (n + 1) * BLOCK <= |table| && |table| - (n + 1) * BLOCK <= 7
    ensures Indexed(table, index + Le24Bytes(code + (|table| - (n + 1) * BLOCK) * CODES), n + 1)
  {
    hide Le24, Leads, Le24Bytes, Runs, Sum, Whole;
    var v := code + (|table| - (n + 1) * BLOCK) * CODES;
    Le24Last(index, v, n);
    LeadsEnd(table, 0, 0, false);
    Bytes3(v);
    forall k: nat | k < n + 1
      ensures Leads(table, 0, 0, false, (k + 1) * BLOCK + Le24(index + Le24Bytes(v), k) / CODES, Le24(index + Le24Bytes(v), k) % CODES)
    {
    }
  }

  lemma Bytes3(v: nat)
    ensures |Le24Bytes(v)| == 3
  {
  }

  lemma IndexedLonger(table: seq<Byte>, b: seq<Byte>, index: seq<Byte>, n: nat)
    requires Indexed(table, index, n) && Whole(table + b, 0)
    ensures Indexed(table + b, index, n)
  {
    hide Le24, Leads, Runs, Whole;
    forall k: nat | k < n
      ensures Leads(table + b, 0, 0, false, (k + 1) * BLOCK + Le24(index, k) / CODES, Le24(index, k) % CODES)
    {
      AppendLeads(table, b, 0, 0, false, (k + 1) * BLOCK + Le24(index, k) / CODES, Le24(index, k) % CODES);
    }
  }

  /** The second loop: table and index of the runs.  It gives up where the source asserts that an offset fits. */
  method BuildTable(runs: seq<nat>) returns (ok: bool, table: seq<Byte>, index: seq<Byte>, n: nat)
    requires AllPositive(runs) && Sum(runs) < CODES
    ensures ok ==> Consistent(table, index, n) && Runs(table, 0) == runs
  {
    hide Le24, Leads, Le24Bytes, Runs, Sum, Whole, Item, Size, RunsAt, Indexed;
    ok, table, index, n := true, [], [], 0;
    EndOfTable([]);
    NoneIndexed();
    var i, code, bit := 0, 0, false;
    NoRuns();
    while i < |runs|
      invariant i <= |runs| && Whole(table, 0) && Runs(table, 0) == runs[..i] && Indexed(table, index, n)
      invariant code == Sum(runs[..i]) && bit == BitAfter(runs[..i], false)
    {
      PartialSum(runs, i);
      if |table| >= (n + 1) * BLOCK && !bit {
        var offset := |table| - (n + 1) * BLOCK;
        if offset > 7 {
          return false, table, index, n;
        }
        IndexedMore(table, index, n, code);
        index, n := index + Le24Bytes(code + offset * CODES), n + 1;
      }
      var (b, k) := Item(runs[i..]);
      OneItem(runs, i, table);
      IndexedLonger(table, b, index, n);
      table := table + b;
      i, code, bit := i + k, code + Sum(runs[i..i + k]), if k == 1 then !bit else bit;
    }
    assert runs[..i] == runs;
    LastEntry(table, index, n, code);
    index, n := index + Le24Bytes(code), n + 1;
  }

  lemma NoneIndexed()
    ensures Indexed([], [], 0)
  {
  }

  lemma PartialSum(runs: seq<nat>, i: nat)
    requires i <= |runs|
    ensures Sum(runs[..i]) <= Sum(runs)
  {
    SumJoin(runs[..i], runs[i..]);
    assert runs == runs[..i] + runs[i..];
  }

  /** One more item keeps table and runs together. */
  lemma OneItem(runs: seq<nat>, i: nat, table: seq<Byte>)
    requires i < |runs| && AllPositive(runs) && Whole(table, 0) && Runs(table, 0) == runs[..i]
    ensures AllPositive(runs[i..])
    ensures var (b, k) := Item(runs[i..]);
            && i + k <= |runs| && Whole(table + b, 0) && Runs(table + b, 0) == runs[..i + k]
            && Sum(runs[..i + k]) == Sum(runs[..i]) + Sum(runs[i..i + k])
            && BitAfter(runs[..i + k], false) == if k == 1 then !BitAfter(runs[..i], false) else BitAfter(runs[..i], false)
  {
    hide Runs, Sum, Whole, Item, Size, RunsAt;
    var (b, k) := Item(runs[i..]);
    var t := table + b;
    assert t[|table|..|table| + |b|] == b && t[|table|] == b[0];
    ItemReads(runs[i..], t, |table|);
    AppendItem(table, b, 0);
    assert runs[i..][..k] == runs[i..i + k] && runs[..i + k] == runs[..i] + runs[i..i + k];
    SumJoin(runs[..i], runs[i..i + k]);
  }

  lemma LastEntry(table: seq<Byte>, index: seq<Byte>, n: nat, code: nat)
    requires Indexed(table, index, n) && code == Sum(Runs(table, 0)) < CODES
    ensures Consistent(table, index + Le24Bytes(code), n + 1)
  {
    hide Le24, Leads, Runs, Sum, Whole, Le24Bytes;
    Le24Last(index, code, n);
    Bytes3(code);
  }

  /** A table built for a property answers as the property does. */
  method Lookup(prop: int -> bool, c: nat) returns (ok: bool, found: bool)
    requires !prop(0)
    ensures ok ==> found == (c <= CHARCODE_MAX && prop(c))
  {
    var runs := RunsOf(prop);
    var table, index, n;
    ok, table, index, n := BuildTable(runs);
    found := false;
    if ok {
      found := IsInTable(c, table, index, n);
    }
  }
}
