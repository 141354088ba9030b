/**
  Objects on the wire: the argument vector of `SLOTSRESTORE`, how it is parsed, and how a long
  list of objects is split into commands.
*/
module Wire {
  import opened Wrappers
  import opened Keys
  import opened Decimal

  type Bytes = seq<byte>

  /** `rdb_dump_obj`: `ttlms` is -1 for a key that does not expire. */
  datatype Obj = Obj(key: Key, ttlms: int64, val: Bytes)

  function Max0(x: int64): int64
  {
    if x > 0 then x else 0
  }

  /** The object as the receiver sees it. */
  function Clamped(o: Obj): Obj
  {
    o.(ttlms := Max0(o.ttlms))
  }

  function ClampedAll(objs: seq<Obj>): (r: seq<Obj>)
    ensures |r| == |objs| && forall i :: 0 <= i < |objs| ==> r[i] == Clamped(objs[i])
  {
    seq(|objs|, i requires 0 <= i < |objs| => Clamped(objs[i]))
  }

  // ---------------------------------------------------------------- argument vectors

  /** The three arguments of an object. */
  function Triple(o: Obj): seq<Bytes>
  {
    [o.key, Print(Max0(o.ttlms)), o.val]
  }

  function Args(objs: seq<Obj>): (argv: seq<Bytes>)
    ensures |argv| == 3 * |objs|
  {
    if objs == [] then [] else Args(objs[..|objs| - 1]) + Triple(objs[|objs| - 1])
  }

  /** What the receiver makes of arguments, three at a time. */
  function ParseTriples(argv: seq<Bytes>): Option<seq<Obj>>
    requires |argv| % 3 == 0
    decreases |argv|
  {
    if argv == [] then Some([])
    else
      var n := |argv|;
      match ParseTriples(argv[..n - 3])
      case None => None
      case Some(objs) =>
        match Parse(argv[n - 2])
        case None => None
        case Some(ttl) => Some(objs + [Obj(argv[n - 3], ttl, argv[n - 1])])
  }

  /** Arguments parse exactly when the second of each three does, negative numbers included, and each three is an object. */
  lemma {:induction false} ParseExact(argv: seq<Bytes>)
    requires |argv| % 3 == 0
    ensures ParseTriples(argv).Some? <==> forall i :: 0 <= i < |argv| / 3 ==> Parse(argv[3 * i + 1]).Some?
    ensures ParseTriples(argv).Some? ==>
      var objs := ParseTriples(argv).value;
      && |objs| == |argv| / 3
      && forall i :: 0 <= i < |objs| ==>
        objs[i].key == argv[3 * i] && Parse(argv[3 * i + 1]) == Some(objs[i].ttlms) && objs[i].val == argv[3 * i + 2]
    decreases |argv|
  {
    hide Parse;
    if argv != [] {
      var n := |argv|;
      var front := argv[..n - 3];
      ParseExact(front);
      assert forall i :: 0 <= i < n - 3 ==> front[i] == argv[i];
      if forall i :: 0 <= i < n / 3 ==> Parse(argv[3 * i + 1]).Some? {
        assert forall i :: 0 <= i < |front| / 3 ==> Parse(front[3 * i + 1]).Some?;
        assert Parse(argv[3 * (n / 3 - 1) + 1]).Some?;
      }
      if forall i :: 0 <= i < |front| / 3 ==> Parse(front[3 * i + 1]).Some? {
        if Parse(argv[n - 2]).Some? {
          forall i | 0 <= i < n / 3
            ensures Parse(argv[3 * i + 1]).Some?
          {
            if i < n / 3 - 1 { assert Parse(front[3 * i + 1]).Some?; }
          }
        }
      }
    }
  }

  /** Parsing what was sent gives the same objects, with negative times to live as zero. */
  lemma {:induction false} ParseArgs(objs: seq<Obj>)
    ensures ParseTriples(Args(objs)) == Some(ClampedAll(objs))
  {
    hide Parse, Print;
    if objs != [] {
      var n := |objs|;
      ParseArgs(objs[..n - 1]);
      ParsePrint(Max0(objs[n - 1].ttlms));
      assert Args(objs)[..3 * n - 3] == Args(objs[..n - 1]);
      assert ClampedAll(objs) == ClampedAll(objs[..n - 1]) + [Clamped(objs[n - 1])];
    }
  }

  lemma ArgsLast(objs: seq<Obj>)
    requires objs != []
    ensures Args(objs) == Args(objs[..|objs| - 1]) + Triple(objs[|objs| - 1])
  {}

  /** The arguments of a part of the objects are a part of the arguments. */
  lemma {:induction false} ArgsSlice(objs: seq<Obj>, i: nat, j: nat)
    requires i <= j <= |objs|
    ensures Args(objs)[3 * i..3 * j] == Args(objs[i..j])
  {
    hide Args, Triple;
    if i == j {
      NoArgs(objs[i..j]);
    } else {
      var n := |objs|;
      var front := objs[..n - 1];
      ArgsLast(objs);
      if j < n {
        ArgsSlice(front, i, j);
        assert front[i..j] == objs[i..j];
        SliceOfSum(Args(front), Triple(objs[n - 1]), 3 * i, 3 * j);
      } else {
        ArgsSlice(front, i, j - 1);
        ArgsLast(objs[i..]);
        assert objs[i..j] == objs[i..] && objs[i..][..n - i - 1] == front[i..j - 1];
        TailOfSum(Args(front), Triple(objs[n - 1]), 3 * i);
      }
    }
  }

  lemma NoArgs(objs: seq<Obj>)
    requires objs == []
    ensures Args(objs) == []
  {}

  lemma SliceOfSum(x: seq<Bytes>, t: seq<Bytes>, a: nat, b: nat)
    requires a <= b <= |x|
    ensures (x + t)[a..b] == x[a..b]
  {}

  lemma TailOfSum(x: seq<Bytes>, t: seq<Bytes>, a: nat)
    requires a <= |x|
    ensures (x + t)[a..|x| + |t|] == x[a..|x|] + t
  {}

  /** The last object of arguments that parse. */
  lemma ParseLast(argv: seq<Bytes>)
    requires |argv| % 3 == 0 && argv != [] && ParseTriples(argv).Some?
    ensures var n, objs := |argv|, ParseTriples(argv).value;
      && objs != [] && ParseTriples(argv[..n - 3]) == Some(objs[..|objs| - 1])
      && objs[|objs| - 1].key == argv[n - 3] && objs[|objs| - 1].val == argv[n - 1]
      && Parse(argv[n - 2]) == Some(objs[|objs| - 1].ttlms)
  {
    hide Parse;
  }

  lemma LastTriple(argv: seq<Bytes>, o: Obj)
    requires |argv| >= 3 && o.ttlms >= 0 && Parse(argv[|argv| - 2]) == Some(o.ttlms)
    requires o.key == argv[|argv| - 3] && o.val == argv[|argv| - 1]
    ensures argv == argv[..|argv| - 3] + Triple(o)
  {
    hide Parse, Print;
    PrintParse(argv[|argv| - 2]);
  }

  /** Every argument vector that parses is read back as it is when its objects are sent on. */
  lemma {:induction false} ArgsParse(argv: seq<Bytes>)
    requires |argv| % 3 == 0 && ParseTriples(argv).Some?
    requires forall i :: 0 <= i < |ParseTriples(argv).value| ==> ParseTriples(argv).value[i].ttlms >= 0
    ensures Args(ParseTriples(argv).value) == argv
    decreases |argv|
  {
    hide Parse, Triple;
    if argv != [] {
      var n := |argv|;
      var objs := ParseTriples(argv).value;
      ParseLast(argv);
      LastTriple(argv, objs[|objs| - 1]);
      ArgsParse(argv[..n - 3]);
    }
  }

  // ---------------------------------------------------------------- splitting

  /** `REDIS_MGRT_CMD_PARAMS_SIZE` */
  const CMD_PARAMS_SIZE: nat := 1024 * 1024

  function SizeOf(o: Obj): nat
  {
    |o.key| + |Print(Max0(o.ttlms))| + |o.val|
  }

  function TotalSize(objs: seq<Obj>): nat
  {
    if objs == [] then 0 else TotalSize(objs[..|objs| - 1]) + SizeOf(objs[|objs| - 1])
  }

  /** How many bytes the arguments have together. */
  function ByteCount(argv: seq<Bytes>): nat
  {
    if argv == [] then 0 else ByteCount(argv[..|argv| - 1]) + |argv[|argv| - 1]|
  }

  lemma {:induction false} ByteCountSum(a: seq<Bytes>, b: seq<Bytes>)
    ensures ByteCount(a + b) == ByteCount(a) + ByteCount(b)
  {
    if b == [] {
      assert a + b == a;
    } else {
      assert (a + b)[..|a + b| - 1] == a + b[..|b| - 1];
      ByteCountSum(a, b[..|b| - 1]);
    }
  }

  /** The size that is summed up is the number of bytes of the arguments that are sent. */
  lemma {:induction false} SizeIsBytes(objs: seq<Obj>)
    ensures TotalSize(objs) == ByteCount(Args(objs))
  {
    hide Print;
    if objs != [] {
      var o := objs[|objs| - 1];
      SizeIsBytes(objs[..|objs| - 1]);
      ByteCountSum(Args(objs[..|objs| - 1]), Triple(o));
      var t := Triple(o);
      assert t[..2] == [t[0], t[1]] && t[..2][..1] == [t[0]] && t[..2][..1][..0] == [];
      assert ByteCount([t[0]]) == |t[0]|;
    }
  }

  /** Each command but the last has more than 1048576 bytes of arguments, and none has without its last object. */
  lemma ChunkBytes(objs: seq<Obj>, cuts: seq<nat>, j: nat)
    requires IsSplit(objs, cuts) && j + 1 < |cuts|
    ensures cuts[j] < cuts[j + 1] <= |objs|
    ensures ByteCount(Args(objs[cuts[j]..cuts[j + 1] - 1])) <= 1_048_576
    ensures j + 2 < |cuts| ==> ByteCount(Args(objs[cuts[j]..cuts[j + 1]])) > 1_048_576
  {
    assert j < |cuts| - 2 ==> Full(objs, cuts[j], cuts[j + 1]);
    assert Fits(objs, cuts[j], cuts[j + 1]);
    SizeIsBytes(objs[cuts[j]..cuts[j + 1] - 1]);
    SizeIsBytes(objs[cuts[j]..cuts[j + 1]]);
  }

  predicate Increasing(cuts: seq<nat>, n: nat)
  {
    |cuts| > 0 && cuts[0] == 0 && (forall j, k :: 0 <= j < k < |cuts| ==> cuts[j] < cuts[k]) && cuts[|cuts| - 1] <= n
  }

  /** A chunk that is not empty, and not above the limit without its last object. */
  ghost predicate Fits(objs: seq<Obj>, a: nat, b: nat)
  {
    a < b <= |objs| && TotalSize(objs[a..b - 1]) <= CMD_PARAMS_SIZE
  }

  /** One that is above the limit with its last object. */
  ghost predicate Full(objs: seq<Obj>, a: nat, b: nat)
  {
    Fits(objs, a, b) && TotalSize(objs[a..b]) > CMD_PARAMS_SIZE
  }

  /** Chunks follow each other without gaps; each but the last is above the limit, and none is above it without its last
      object. */
  ghost predicate IsSplit(objs: seq<Obj>, cuts: seq<nat>)
  {
    && Increasing(cuts, |objs|) && |cuts| >= 2 && cuts[|cuts| - 1] == |objs|
    && (forall j :: 0 <= j < |cuts| - 2 ==> Full(objs, cuts[j], cuts[j + 1]))
    && Fits(objs, cuts[|cuts| - 2], cuts[|cuts| - 1])
  }

  /** The chunks one after the other. */
  function Joined(objs: seq<Obj>, cuts: seq<nat>, m: nat): seq<Obj>
    requires Increasing(cuts, |objs|) && m < |cuts|
  {
    if m == 0 then [] else Joined(objs, cuts, m - 1) + objs[cuts[m - 1]..cuts[m]]
  }

  /** The chunks concatenate to all objects, and there are at most as many chunks as objects. */
  lemma {:induction false} ChunksJoin(objs: seq<Obj>, cuts: seq<nat>, m: nat)
    requires Increasing(cuts, |objs|) && m < |cuts|
    ensures Joined(objs, cuts, m) == objs[..cuts[m]] && m <= cuts[m]
  {
    if m > 0 {
      ChunksJoin(objs, cuts, m - 1);
      assert objs[..cuts[m]] == objs[..cuts[m - 1]] + objs[cuts[m - 1]..cuts[m]];
    }
  }

  lemma {:induction false} LongerIsBigger(objs: seq<Obj>, a: nat, b: nat)
    requires a <= b <= |objs|
    ensures TotalSize(objs[..a]) <= TotalSize(objs[..b])
  {
    hide SizeOf;
    if a < b {
      LongerIsBigger(objs, a, b - 1);
      assert objs[..b][..b - 1] == objs[..b - 1];
    }
  }

  /** There is only one such split. */
  lemma {:induction false} SplitUnique(objs: seq<Obj>, c: seq<nat>, d: seq<nat>, m: nat)
    requires IsSplit(objs, c) && IsSplit(objs, d) && m < |c| && m < |d|
    ensures c[m] == d[m]
  {
    hide Full, Fits;
    if m > 0 {
      SplitUnique(objs, c, d, m - 1);
      if c[m] < d[m] { NextCutFirst(objs, c, d, m); }
      if d[m] < c[m] { NextCutFirst(objs, d, c, m); }
    }
  }

  lemma NextCutFirst(objs: seq<Obj>, c: seq<nat>, d: seq<nat>, m: nat)
    requires IsSplit(objs, c) && IsSplit(objs, d) && 0 < m < |c| && m < |d| && c[m - 1] == d[m - 1]
    ensures c[m] >= d[m]
  {
    if c[m] < d[m] {
      assert m < |c| - 1;
      assert Full(objs, c[m - 1], c[m]) && Fits(objs, d[m - 1], d[m]) by {
        assert m < |d| - 1 ==> Full(objs, d[m - 1], d[m]);
      }
      FullFirst(objs, c[m - 1], c[m], d[m]);
    }
  }

  lemma FullFirst(objs: seq<Obj>, a: nat, b: nat, c: nat)
    requires Full(objs, a, b) && Fits(objs, a, c)
    ensures c <= b
  {
    hide TotalSize;
    if b < c {
      var rest := objs[a..];
      assert rest[..b - a] == objs[a..b];
      assert rest[..c - 1 - a] == objs[a..c - 1];
      LongerIsBigger(rest, b - a, c - 1 - a);
    }
  }

  /** The cuts made while objects were added one by one up to `i`, the last cut being `start`. */
  ghost predicate SplitSoFar(objs: seq<Obj>, cuts: seq<nat>, start: nat, i: nat)
  {
    && Increasing(cuts, |objs|) && cuts[|cuts| - 1] == start <= i <= |objs|
    && (forall j :: 0 <= j < |cuts| - 1 ==> Full(objs, cuts[j], cuts[j + 1]))
    && (if i == 0 then start == 0 else Fits(objs, start, i))
  }

  lemma OneMoreObject(objs: seq<Obj>, cuts: seq<nat>, start: nat, i: nat)
    requires SplitSoFar(objs, cuts, start, i) && i < |objs| && TotalSize(objs[start..i]) <= CMD_PARAMS_SIZE
    ensures SplitSoFar(objs, cuts, start, i + 1)
    ensures TotalSize(objs[start..i + 1]) == TotalSize(objs[start..i]) + SizeOf(objs[i])
  {
    hide SizeOf, Full;
    assert objs[start..i + 1][..i - start] == objs[start..i];
  }

  /** The first object after a cut. */
  lemma CutHere(objs: seq<Obj>, cuts: seq<nat>, start: nat, i: nat)
    requires SplitSoFar(objs, cuts, start, i) && i < |objs| && TotalSize(objs[start..i]) > CMD_PARAMS_SIZE
    ensures SplitSoFar(objs, cuts + [i], i, i + 1)
    ensures TotalSize(objs[i..i]) == 0 && TotalSize(objs[i..i + 1]) == SizeOf(objs[i])
  {
    hide TotalSize, SizeOf;
    SizeOfOne(objs, i);
    assert Full(objs, start, i) && Fits(objs, i, i + 1);
    hide Full, Fits;
    assert start < i by { FullBounds(objs, start, i); }
  }

  lemma FullBounds(objs: seq<Obj>, a: nat, b: nat)
    requires Full(objs, a, b)
    ensures a < b
  {}

  lemma SizeOfOne(objs: seq<Obj>, i: nat)
    requires i < |objs|
    ensures TotalSize(objs[i..i]) == 0 && TotalSize(objs[i..i + 1]) == SizeOf(objs[i])
  {
    hide SizeOf;
    assert objs[i..i + 1][..0] == [];
  }

  lemma LastCut(objs: seq<Obj>, cuts: seq<nat>, start: nat)
    requires SplitSoFar(objs, cuts, start, |objs|) && |objs| > 0
    ensures IsSplit(objs, cuts + [|objs|])
  {
    hide TotalSize, Full;
  }
}
