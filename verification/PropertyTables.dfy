/** Run-length tables of character properties, read through an index or from the start. */
module PropertyTables {
  import opened CharSets

  type Byte = x: int | 0 <= x < 256

  // ----- the encoding -----

  function Size(b: Byte): (n: nat)
    ensures 1 <= n <= 3
  {
    if b < 64 || b >= 0x80 then 1 else if b < 0x60 then 2 else 3
  }

  /** The lengths of the one or two runs encoded at p. */
  function RunsAt(table: seq<Byte>, p: nat): (runs: seq<nat>)
    requires p + Size(if p < |table| then table[p] else 0) <= |table|
    ensures 1 <= |runs| <= 2
  {
    var b: int := table[p];
    if b < 64 then [b / 8 + 1, b % 8 + 1]
    else if b >= 0x80 then [b - 0x80 + 1]
    else
      var b1: int := table[p + 1];
      if b < 0x60 then [(b - 0x40) * 256 + b1 + 1]
      else
        var b2: int := table[p + 2];
        [(b - 0x60) * 65536 + b1 * 256 + b2 + 1]
  }

  /** No item is cut off by the end of the table. */
  predicate Whole(table: seq<Byte>, p: nat)
    decreases |table| - p
  {
    p <= |table| && (p < |table| ==> p + Size(table[p]) <= |table| && Whole(table, p + Size(table[p])))
  }

  /** All the runs from p on. */
  function Runs(table: seq<Byte>, p: nat): seq<nat>
    requires Whole(table, p)
    decreases |table| - p
  {
    if p == |table| then [] else RunsAt(table, p) + Runs(table, p + Size(table[p]))
  }

  function Sum(runs: seq<nat>): nat {
    if runs == [] then 0 else runs[0] + Sum(runs[1..])
  }

  /** Whether c lies in the set, if the first of the runs starts at `code` and `bit` tells whether it
      belongs to the set. */
  predicate Member(runs: seq<nat>, code: nat, bit: bool, c: nat) {
    if runs == [] then false
    else if c < code + runs[0] then bit
    else Member(runs[1..], code + runs[0], !bit, c)
  }

  // ----- the index -----

  /** Reading from p, at `code` and outside the set, comes to q at `code'` and outside the set. */
  ghost predicate Leads(table: seq<Byte>, p: nat, code: nat, bit: bool, q: nat, code': nat)
    requires Whole(table, p)
    decreases |table| - p
  {
    if p == q then code == code' && !bit
    else
      && p < |table|
      && var runs := RunsAt(table, p);
      Leads(table, p + Size(table[p]), code + Sum(runs), if |runs| == 1 then !bit else bit, q, code')
  }

  /** Starting in the middle gives the same answer for the characters from there on. */
  lemma {:induction false} LeadsMember(table: seq<Byte>, p: nat, code: nat, bit: bool, q: nat, code': nat, c: nat)
    requires Whole(table, p) && Leads(table, p, code, bit, q, code') && code' <= c
    ensures Whole(table, q) && code <= code' && Member(Runs(table, p), code, bit, c) == Member(Runs(table, q), code', false, c)
    decreases |table| - p
  {
    hide RunsAt, Sum, Member, Size;
    if p != q {
      var runs, p' := RunsAt(table, p), p + Size(table[p]);
      LeadsMember(table, p', code + Sum(runs), if |runs| == 1 then !bit else bit, q, code', c);
      MemberSkip(runs, Runs(table, p'), code, bit, c);
    }
  }

  /** A place that reading leads to lies inside the table. */
  lemma {:induction false} LeadsInside(table: seq<Byte>, p: nat, code: nat, bit: bool, q: nat, code': nat)
    requires Whole(table, p) && Leads(table, p, code, bit, q, code')
    ensures code' <= code + Sum(Runs(table, p))
    decreases |table| - p
  {
    hide RunsAt, Sum, Size;
    if p != q {
      var runs, p' := RunsAt(table, p), p + Size(table[p]);
      LeadsInside(table, p', code + Sum(runs), if |runs| == 1 then !bit else bit, q, code');
      SumJoin(runs, Runs(table, p'));
    }
  }

  lemma {:induction false} SumJoin(x: seq<nat>, y: seq<nat>)
    ensures Sum(x + y) == Sum(x) + Sum(y)
  {
    if x == [] {
      assert x + y == y;
    } else {
      assert (x + y)[1..] == x[1..] + y;
      SumJoin(x[1..], y);
    }
  }

  lemma MemberSkip(runs: seq<nat>, rest: seq<nat>, code: nat, bit: bool, c: nat)
    requires 1 <= |runs| <= 2 && code + Sum(runs) <= c
    ensures Member(runs + rest, code, bit, c) == Member(rest, code + Sum(runs), if |runs| == 1 then !bit else bit, c)
  {
    assert (runs + rest)[1..] == runs[1..] + rest;
    if |runs| == 1 {
      assert runs[1..] + rest == rest;
      assert Sum(runs[1..]) == 0;
    } else {
      assert (runs[1..] + rest)[1..] == rest;
      assert Sum(runs[1..]) == runs[1] + Sum(runs[1..][1..]) == runs[1];
    }
  }

  lemma {:induction false} MemberPast(runs: seq<nat>, code: nat, bit: bool, c: nat)
    requires code + Sum(runs) <= c
    ensures !Member(runs, code, bit, c)
  {
    if runs != [] {
      MemberPast(runs[1..], code + runs[0], !bit, c);
    }
  }

  const BLOCK := 32
  const CODES := 0x20_0000

  /** `get_le24` */
  function Le24(bytes: seq<Byte>, i: nat): nat
    requires 3 * i + 3 <= |bytes|
  {
    var b0: int, b1: int, b2: int := bytes[3 * i], bytes[3 * i + 1], bytes[3 * i + 2];
    b0 + b1 * 256 + b2 * 65536
  }

  /** Every index entry but the last names a place where reading may start; the last gives the first
      character after the table. */
  ghost predicate Consistent(table: seq<Byte>, index: seq<Byte>, n: nat) {
    && Whole(table, 0) && 1 <= n && |index| == 3 * n
    && Le24(index, n - 1) == Sum(Runs(table, 0)) < CODES
    && forall k | 0 <= k < n - 1 ::
         Leads(table, 0, 0, false, (k + 1) * BLOCK + Le24(index, k) / CODES, Le24(index, k) % CODES)
  }

  /** `get_index_pos`: where to start reading for c, and at which character */
  method IndexPosition(c: nat, index: seq<Byte>, n: nat, ghost table: seq<Byte>) returns (pos: int, code: nat)
    requires Consistent(table, index, n)
    ensures pos < 0 <==> Sum(Runs(table, 0)) <= c
    ensures pos >= 0 ==> code <= c && Leads(table, 0, 0, false, pos, code)
  {
    hide Le24, Leads, Sum, Runs;
    code := Le24(index, 0) % CODES;
    if c < code {
      FirstEntry(table, index, n);
      return 0, 0;
    }
    var hi := n - 1;
    if c >= Le24(index, hi) {
      return -1, 0;
    }
    var lo := 0;
    while hi - lo > 1
      invariant 0 <= lo < hi < n && Le24(index, lo) % CODES <= c < Le24(index, hi) % CODES
    {
      var mid := (hi + lo) / 2;
      if c < Le24(index, mid) % CODES {
        hi := mid;
      } else {
        lo := mid;
      }
    }
    var v := Le24(index, lo);
    return (lo + 1) * BLOCK + v / CODES, v % CODES;
  }

  lemma FirstEntry(table: seq<Byte>, index: seq<Byte>, n: nat)
    requires Consistent(table, index, n)
    ensures Le24(index, 0) % CODES <= Sum(Runs(table, 0)) && Leads(table, 0, 0, false, 0, 0)
  {
    hide Le24, Sum;
    if n > 1 {
      LeadsInside(table, 0, 0, false, (0 + 1) * BLOCK + Le24(index, 0) / CODES, Le24(index, 0) % CODES);
    }
  }

  /** `lre_is_in_table` */
  method IsInTable(c: nat, table: seq<Byte>, index: seq<Byte>, n: nat) returns (found: bool)
    requires Consistent(table, index, n)
    ensures found == Member(Runs(table, 0), 0, false, c)
  {
    hide Le24, Leads, Sum, Member, RunsAt;
    var pos: int, code: nat := IndexPosition(c, index, n, table);
    if pos < 0 {
      MemberPast(Runs(table, 0), 0, false, c);
      return false;
    }
    LeadsMember(table, 0, 0, false, pos, code, c);
    LeadsTotal(table, 0, 0, false, pos, code);
    var p: nat := pos;
    var bit := false;
    while true
      invariant Whole(table, p) && code <= c < code + Sum(Runs(table, p))
      invariant Member(Runs(table, 0), 0, false, c) == Member(Runs(table, p), code, bit, c)
      decreases |table| - p
    {
      SomeLeft(table, p);
      var runs := RunsAt(table, p);
      ReadItem(table, p, code, bit, c);
      if |runs| == 2 {
        code := code + runs[0];
        if c < code {
          return bit;
        }
        bit := !bit;
      }
      code := code + runs[|runs| - 1];
      p := p + Size(table[p]);
      if c < code {
        return bit;
      }
      bit := !bit;
    }
  }

  lemma SomeLeft(table: seq<Byte>, p: nat)
    requires Whole(table, p) && Sum(Runs(table, p)) > 0
    ensures p < |table|
  {
  }

  /** What the runs of one item say about c. */
  lemma ReadItem(table: seq<Byte>, p: nat, code: nat, bit: bool, c: nat)
    requires Whole(table, p) && p < |table| && code <= c
    ensures var runs, rest := RunsAt(table, p), Runs(table, p + Size(table[p]));
            && Sum(Runs(table, p)) == Sum(runs) + Sum(rest)
            && Sum(runs) == (if |runs| == 1 then runs[0] else runs[0] + runs[1])
            && Member(Runs(table, p), code, bit, c) ==
               if c < code + runs[0] then bit
               else if |runs| == 1 then Member(rest, code + runs[0], !bit, c)
               else if c < code + runs[0] + runs[1] then !bit
               else Member(rest, code + runs[0] + runs[1], bit, c)
  {
    hide RunsAt, Size;
    var runs, rest := RunsAt(table, p), Runs(table, p + Size(table[p]));
    SumJoin(runs, rest);
    assert (runs + rest)[1..] == runs[1..] + rest;
    if |runs| == 1 {
      assert runs[1..] + rest == rest;
      assert Sum(runs[1..]) == 0;
    } else {
      assert (runs[1..] + rest)[1..] == rest;
      assert Sum(runs[1..]) == runs[1] + Sum(runs[1..][1..]) == runs[1];
    }
  }

  lemma {:induction false} LeadsTotal(table: seq<Byte>, p: nat, code: nat, bit: bool, q: nat, code': nat)
    requires Whole(table, p) && Leads(table, p, code, bit, q, code')
    ensures Whole(table, q) && code' + Sum(Runs(table, q)) == code + Sum(Runs(table, p))
    decreases |table| - p
  {
    hide RunsAt, Sum, Size;
    if p != q {
      var runs, p' := RunsAt(table, p), p + Size(table[p]);
      LeadsTotal(table, p', code + Sum(runs), if |runs| == 1 then !bit else bit, q, code');
      SumJoin(runs, Runs(table, p'));
    }
  }

  // ----- the whole set -----

  /** The endpoints of the set that runs describe. */
  function Endpoints(runs: seq<nat>, code: nat, bit: bool): (s: seq<int>)
    ensures |s| % 2 == 0
  {
    if runs == [] then []
    else (if bit then [code as int, code + runs[0]] else []) + Endpoints(runs[1..], code + runs[0], !bit)
  }

  lemma {:induction false} EndpointsSorted(runs: seq<nat>, code: nat, bit: bool)
    ensures Sorted(Endpoints(runs, code, bit)) && forall x :: x in Endpoints(runs, code, bit) ==> code <= x
  {
    if runs != [] {
      EndpointsSorted(runs[1..], code + runs[0], !bit);
      var rest := Endpoints(runs[1..], code + runs[0], !bit);
      assert forall i | 0 <= i < |rest| :: rest[i] in rest;
    }
  }

  /** The endpoints describe the same set as the runs. */
  lemma {:induction false} EndpointsHold(runs: seq<nat>, code: nat, bit: bool, c: nat)
    ensures Has(Endpoints(runs, code, bit), c) == (code <= c && Member(runs, code, bit, c))
  {
    hide Crossed, Endpoints, Step;
    if runs == [] {
      NoEndpoints(code, bit);
      CrossedNone([], c);
    } else {
      var next := code + runs[0];
      var rest := Endpoints(runs[1..], next, !bit);
      EndpointsHold(runs[1..], next, !bit, c);
      EndpointsFirst(runs, code, bit, c);
      StepIs(code, c);
      StepIs(next, c);
      if c < next {
        RestNone(runs[1..], next, !bit, c);
      }
    }
  }

  lemma StepIs(x: int, c: int)
    ensures Step(x, c) == if x <= c then 1 else 0
  {
  }

  lemma RestNone(runs: seq<nat>, code: nat, bit: bool, c: nat)
    requires c < code
    ensures Crossed(Endpoints(runs, code, bit), c) == 0
  {
    hide Crossed, Endpoints;
    var s := Endpoints(runs, code, bit);
    EndpointsSorted(runs, code, bit);
    assert forall i | 0 <= i < |s| :: s[i] in s;
    CrossedNone(s, c);
  }

  lemma EndpointsFirst(runs: seq<nat>, code: nat, bit: bool, c: nat)
    requires runs != []
    ensures var next := code + runs[0];
            Crossed(Endpoints(runs, code, bit), c) ==
            (if bit then Step(code, c) + Step(next, c) else 0) + Crossed(Endpoints(runs[1..], next, !bit), c)
  {
    hide Crossed, Step;
    var rest := Endpoints(runs[1..], code + runs[0], !bit);
    if bit {
      OneMore(code, code + runs[0], rest, c);
    } else {
      assert [] + rest == rest;
    }
  }

  lemma OneMore(x: int, y: int, rest: seq<int>, c: int)
    requires x <= y
    ensures Crossed([x, y] + rest, c) == Step(x, c) + Step(y, c) + Crossed(rest, c)
  {
    hide Crossed, Step;
    assert [x, y] == [x] + [y];
    CrossedJoin([x, y], rest, c);
    CrossedPush([x], y, c);
    CrossedOne(x, c);
  }

  /** `unicode_prop1` */
  method CollectProperty(cr: CharRange, table: seq<Byte>)
    requires Whole(table, 0) && cr.points == []
    modifies cr
    ensures Sorted(cr.points) && |cr.points| % 2 == 0
    ensures forall c: nat :: Has(cr.points, c) == Member(Runs(table, 0), 0, false, c)
  {
    hide RunsAt, Endpoints, Has, Member;
    var p, c, bit := 0, 0, false;
    ghost var all := Endpoints(Runs(table, 0), 0, false);
    while p < |table|
      invariant 0 <= p <= |table| && Whole(table, p) && 0 <= c
      invariant all == cr.points + Endpoints(Runs(table, p), c, bit)
    {
      var runs := RunsAt(table, p);
      ItemEndpoints(table, p, c, bit);
      if |runs| == 2 {
        if bit {
          cr.points := cr.points + [c, c + runs[0]];
        }
        c := c + runs[0];
        bit := !bit;
      }
      if bit {
        cr.points := cr.points + [c, c + runs[|runs| - 1]];
      }
      c := c + runs[|runs| - 1];
      bit := !bit;
      p := p + Size(table[p]);
    }
    NoEndpoints(c, bit);
    assert cr.points + [] == cr.points;
    EndpointsSorted(Runs(table, 0), 0, false);
    forall x: nat ensures Has(cr.points, x) == Member(Runs(table, 0), 0, false, x) {
      EndpointsHold(Runs(table, 0), 0, false, x);
    }
  }

  lemma NoEndpoints(code: nat, bit: bool)
    ensures Endpoints([], code, bit) == []
  {
  }

  lemma ItemEndpoints(table: seq<Byte>, p: nat, code: nat, bit: bool)
    requires Whole(table, p) && p < |table|
    ensures var runs, rest := RunsAt(table, p), Runs(table, p + Size(table[p]));
            Endpoints(Runs(table, p), code, bit) ==
            (if bit then [code as int, code + runs[0]] else [])
            + (if |runs| == 1 then Endpoints(rest, code + runs[0], !bit)
               else (if bit then [] else [code + runs[0] as int, code + runs[0] + runs[1]])
                    + Endpoints(rest, code + runs[0] + runs[1], bit))
  {
    hide RunsAt, Size;
    var runs, rest := RunsAt(table, p), Runs(table, p + Size(table[p]));
    assert (runs + rest)[1..] == runs[1..] + rest;
    if |runs| == 1 {
      assert runs[1..] + rest == rest;
    } else {
      assert (runs[1..] + rest)[1..] == rest;
    }
  }
}
