/**
 * The file-level helpers of src/fileio.cpp: the `AggHash` aggregate of node
 * ids, the parser of the optional CNL header and the node-count estimate
 * from a file size.  A file is modelled as the sequence of its lines, each
 * with the `\n` that `readline` keeps; the last one may lack it.
 */
module FileIO {
  import opened Text
  import opened Exceptions
  import opened Arith

  /** 2^64: `Size` is `uint64_t`, and so is `size_t`. */
  const SizeLimit: int := 0x1_0000_0000_0000_0000

  // ---------------------------------------------------------------------------
  // AggHash

  /** The sum of the ids of `ids`, without wrap-around. */
  function IdSum(ids: seq<nat>): nat
  {
    if ids == [] then 0 else IdSum(ids[..|ids| - 1]) + ids[|ids| - 1]
  }

  /** The sum of the squares of `ids`, each square taken in 32-bit `Id` arithmetic. */
  function SquareSum(ids: seq<nat>): nat
  {
    if ids == [] then 0
    else SquareSum(ids[..|ids| - 1]) + (ids[|ids| - 1] * ids[|ids| - 1]) % IdLimit
  }

  /** Removing one element from a sum, wherever it is. */
  lemma {:induction false} SumsWithout(ids: seq<nat>, j: nat)
    requires j < |ids|
    ensures IdSum(ids) == IdSum(ids[..j] + ids[j + 1..]) + ids[j]
    ensures SquareSum(ids) == SquareSum(ids[..j] + ids[j + 1..]) + (ids[j] * ids[j]) % IdLimit
    decreases |ids|
  {
    var rest := ids[..j] + ids[j + 1..];
    if j < |ids| - 1 {
      var init := ids[..|ids| - 1];
      SumsWithout(init, j);
      assert init[..j] + init[j + 1..] == rest[..|rest| - 1];
      assert rest[|rest| - 1] == ids[|ids| - 1];
    } else {
      assert rest == ids[..|ids| - 1];
    }
  }

  /** The aggregated sums depend on the multiset of ids only, not on their order. */
  lemma {:induction false} SumsOrderFree(a: seq<nat>, b: seq<nat>)
    requires multiset(a) == multiset(b)
    ensures IdSum(a) == IdSum(b) && SquareSum(a) == SquareSum(b)
    decreases |a|
  {
    if a != [] {
      var x := a[|a| - 1];
      assert x in multiset(b);
      var j :| 0 <= j < |b| && b[j] == x;
      var b' := b[..j] + b[j + 1..];
      assert b == b[..j] + [b[j]] + b[j + 1..];
      assert a == a[..|a| - 1] + [x];
      assert multiset(b) == multiset(b[..j]) + multiset{x} + multiset(b[j + 1..]);
      assert multiset(b') == multiset(b[..j]) + multiset(b[j + 1..]);
      assert multiset(a) == multiset(a[..|a| - 1]) + multiset{x};
      assert multiset(a[..|a| - 1]) == multiset(a) - multiset{x};
      assert multiset(b') == multiset(b) - multiset{x};
      SumsOrderFree(a[..|a| - 1], b');
      SumsWithout(b, j);
    } else {
      assert |b| == |multiset(b)| == 0;
    }
  }

  /**
   * `AggHash`: an order-free aggregate of the node ids added to it, the count,
   * the sum and the sum of squares, each kept in a 64-bit counter.
   */
  class AggHash {
    var size: nat
    var idsum: nat
    var id2sum: nat
    /** The ids added since the last `clear`. */
    ghost var ids: seq<nat>

    ghost predicate Valid()
      reads this
    {
      (forall k :: 0 <= k < |ids| ==> ids[k] < IdLimit)
      && size == |ids| % SizeLimit
      && idsum == IdSum(ids) % SizeLimit
      && id2sum == SquareSum(ids) % SizeLimit
    }

    constructor ()
      ensures Valid() && ids == []
      ensures size == 0 && idsum == 0 && id2sum == 0
    {
      size, idsum, id2sum := 0, 0, 0;
      ids := [];
    }

    /**
     * `add(id)`: counts the id, adds it to the sum and adds its square, where
     * the square is computed in 32-bit arithmetic before it is widened.
     */
    method Add(id: nat)
      requires Valid() && id < IdLimit
      modifies this
      ensures Valid() && ids == old(ids) + [id]
      ensures size == (old(size) + 1) % SizeLimit
      ensures idsum == (old(idsum) + id) % SizeLimit
      ensures id2sum == (old(id2sum) + (id * id) % IdLimit) % SizeLimit
    {
      ghost var before := ids;
      var sq := (id * id) % IdLimit;
      ModAddLeft(|before|, 1, SizeLimit);
      ModAddLeft(IdSum(before), id, SizeLimit);
      ModAddLeft(SquareSum(before), sq, SizeLimit);
      size := (size + 1) % SizeLimit;
      idsum := (idsum + id) % SizeLimit;
      id2sum := (id2sum + sq) % SizeLimit;
      ids := before + [id];
      assert ids[..|ids| - 1] == before;
      assert IdSum(ids) == IdSum(before) + id;
      assert SquareSum(ids) == SquareSum(before) + sq;
    }

    /** `clear()`: resets the aggregate to the empty one. */
    method Clear()
      modifies this
      ensures Valid() && ids == []
      ensures size == 0 && idsum == 0 && id2sum == 0
    {
      size, idsum, id2sum := 0, 0, 0;
      ids := [];
    }
  }

  /**
   * The square is taken in 32 bits: an id below 2^16 adds its full square,
   * and every multiple of 2^16 adds 0, its square being a multiple of 2^32.
   */
  lemma SquareWraps(id: nat, k: nat)
    requires id < 65536
    ensures SquareSum([id]) == id * id
    ensures SquareSum([65536 * k]) == 0
  {
    assert [id][..0] == [];
    assert SquareSum([id]) == (id * id) % IdLimit;
    SmallSquare(id);
    Arith.ModSmall(id * id, IdLimit);
    assert [65536 * k][..0] == [];
    assert SquareSum([65536 * k]) == ((65536 * k) * (65536 * k)) % IdLimit;
    WideSquare(k);
  }

  lemma SmallSquare(id: nat)
    requires id < 65536
    ensures id * id < IdLimit
  {
    var d := 65535 - id;
    assert d >= 0;
    assert 65535 * 65535 - id * id == d * (65535 + id);
  }

  lemma WideSquare(k: nat)
    ensures ((65536 * k) * (65536 * k)) % IdLimit == 0
  {
    var x := 65536 * k;
    assert x * x == IdLimit * (k * k);
    Arith.ModUnique(x * x, IdLimit, k * k, 0);
  }

  // ---------------------------------------------------------------------------
  // parseHeader

  /** Delimiters of the attribute names (`attrnameDelim`). */
  const AttrNameDelims: set<char> := {' ', '\t', ':', ','}
  /** Delimiters of the attribute values in `parseId`. */
  const ValueDelims: set<char> := {' ', '\t', ','}

  /** The cluster and node counts a header announces. */
  datatype Counts = Counts(clsnum: nat, ndsnum: nat)

  /** How `parseHeader` treats a line. */
  datatype LineKind = Blank | Data | Comment | Header
  {
    /** Lines `parseHeader` skips. */
    predicate Skipped()
    {
      Blank? || Comment?
    }
  }

  /**
   * The kind of a line as `readline` returns it, with its terminating `\n`
   * (the last line of a file may lack one): a line that is empty or opens
   * with `\n` is blank (`StringBuffer::empty`), a line not opening with `#`
   * is data, and a `#` line is a header when `strtok` finds a first
   * attribute-name token after the `#` that does not itself open with `#`.
   * The attribute-name delimiters do not include `\n`, so the terminator
   * is part of the last token of the line.
   */
  function KindOf(line: string): (k: LineKind)
    ensures k == Blank <==> line == [] || line[0] == '\n'
    ensures k == Data <==> line != [] && line[0] != '#' && line[0] != '\n'
  {
    if line == [] || line[0] == '\n' then Blank
    else if line[0] != '#' then Data
    else
      var a := SkipDelims(line[1..], AttrNameDelims);
      if a == |line| - 1 || line[a + 1] == '#' then Comment else Header
  }

  /** The kind of a `#` line, stated through the `strtok` call `parseHeader` makes on it. */
  lemma KindOfByStrTok(line: string)
    requires line != [] && line[0] == '#'
    ensures var t := StrTok(line[1..], AttrNameDelims);
      KindOf(line) == Header <==> t.Some? && t.value.0[0] != '#'
  {
    var s := line[1..];
    var a := SkipDelims(s, AttrNameDelims);
    var t := StrTok(s, AttrNameDelims);
    if a == |s| {
      assert t.None?;
    } else {
      assert s[a] !in AttrNameDelims;
      assert t.Some?;
      assert t.value.0[0] == s[a];
    }
  }

  /**
   * `parseId()`: the next token under the value delimiters read as an `Id`,
   * and the text after it.  A missing value reads as 0.
   */
  function ParseValue(s: string): (r: (nat, string))
    ensures r.0 < IdLimit && |r.1| <= |s|
  {
    match StrTok(s, ValueDelims)
    case None => (0, [])
    case Some((tok, rest)) => (ParseId(tok), rest)
  }

  /**
   * The attribute loop of a header line, from the attribute name `tok` with
   * `s` the text after it, after `attrs` attributes were read into `c`: the
   * result is the final counts and the number of attributes read.
   */
  function Attributes(tok: string, s: string, attrs: nat, c: Counts): (r: (Counts, nat))
    requires attrs < 2
    ensures attrs <= r.1 <= 2
    decreases |s|
  {
    var name := Lowercase(tok);
    if name != "clusters" && name != "nodes" then (c, attrs)
    else
      var (v, rest) := ParseValue(s);
      var c' := if name == "clusters" then c.(clsnum := v) else c.(ndsnum := v);
      match StrTok(rest, AttrNameDelims)
      case None => (c', attrs + 1)
      case Some((t, rest')) =>
        if attrs + 1 < 2 then Attributes(t, rest', attrs + 1, c') else (c', attrs + 1)
  }

  /** An attribute name other than `clusters` and `nodes`, in any letter case, aborts the header unchanged. */
  lemma UnknownAttributeAborts(tok: string, s: string, attrs: nat, c: Counts)
    requires attrs < 2
    requires Lowercase(tok) != "clusters" && Lowercase(tok) != "nodes"
    ensures Attributes(tok, s, attrs, c) == (c, attrs)
  {
  }

  /** Attribute names are compared after lowercasing, so the letter case does not matter. */
  lemma AttributeCaseFree(tok1: string, tok2: string, s: string, attrs: nat, c: Counts)
    requires attrs < 2 && Lowercase(tok1) == Lowercase(tok2)
    ensures Attributes(tok1, s, attrs, c) == Attributes(tok2, s, attrs, c)
  {
  }

  /** A `clusters` attribute sets the cluster count to its value and leaves the node count alone. */
  lemma ClustersAttribute(tok: string, s: string, c: Counts)
    requires Lowercase(tok) == "clusters"
    requires StrTok(ParseValue(s).1, AttrNameDelims).None?
    ensures Attributes(tok, s, 0, c) == (Counts(ParseValue(s).0, c.ndsnum), 1)
  {
  }

  /**
   * A line holding only `#`, attribute-name delimiters and the terminator is
   * a header, not a comment: its one token is `\n`, an unknown attribute,
   * so it leaves the counts as they were and ends the header search.
   */
  lemma BareHashIsHeader(ds: string, c: Counts)
    requires forall k :: 0 <= k < |ds| ==> ds[k] in AttrNameDelims
    ensures KindOf("#" + ds + "\n") == Header
    ensures HeaderCounts("#" + ds + "\n", c) == Clamp(c)
  {
    var line := "#" + ds + "\n";
    assert line[1..] == ds + "\n" + [];
    StrTokWord(ds, "\n", [], AttrNameDelims);
    KindOfByStrTok(line);
    assert Lowercase("\n") == "\n";
  }

  /**
   * An attribute name that ends the line carries the terminator and is not
   * recognised, whatever it is: `# Nodes 5 Clusters\n` reads the node count
   * only.
   */
  lemma TrailingAttributeName(name: string, n: nat, last: string, c: Counts)
    requires IsToken(name, AttrNameDelims) && Lowercase(name) == "nodes"
    requires n < IdLimit && IsToken(last, AttrNameDelims)
    ensures var line := "#" + name + " " + DecimalString(n) + " " + last + "\n";
      KindOf(line) == Header && HeaderCounts(line, c) == Clamp(c.(ndsnum := n))
  {
    var rest := DecimalString(n) + " " + last + "\n";
    assert "#" + name + " " + DecimalString(n) + " " + last + "\n" == "#" + name + " " + rest;
    HeaderLine(name, rest, c);
    NodesThenTrailing(name, n, last, c);
  }

  /** A `#` line opening with the attribute name `name` and a blank. */
  lemma HeaderLine(name: string, rest: string, c: Counts)
    requires IsToken(name, AttrNameDelims)
    requires name[0] != '#'
    ensures var line := "#" + name + " " + rest;
      KindOf(line) == Header && HeaderCounts(line, c) == Clamp(Attributes(name, rest, 0, c).0)
  {
    var line := "#" + name + " " + rest;
    assert line[1..] == [] + name + (" " + rest);
    StrTokWord([], name, " " + rest, AttrNameDelims);
    KindOfByStrTok(line);
  }

  /** The attributes after the `#`: a node count, then a name carrying the terminator. */
  lemma NodesThenTrailing(name: string, n: nat, last: string, c: Counts)
    requires Lowercase(name) == "nodes"
    requires n < IdLimit && IsToken(last, AttrNameDelims)
    ensures Attributes(name, DecimalString(n) + " " + last + "\n", 0, c) == (c.(ndsnum := n), 1)
  {
    var t := last + "\n";
    assert DecimalString(n) + " " + last + "\n" == DecimalString(n) + " " + t;
    ValueThenName(n, t);
    TrailingToken(last);
    var c' := c.(ndsnum := n);
    assert Lowercase(t)[|t| - 1] == '\n';
    assert Attributes(t, [], 1, c') == (c', 1);
  }

  lemma ValueThenName(n: nat, t: string)
    requires n < IdLimit
    ensures ParseValue(DecimalString(n) + " " + t) == (n, t)
  {
    var digits := DecimalString(n);
    assert digits + " " + t == [] + digits + (" " + t);
    StrTokWord([], digits, " " + t, ValueDelims);
    ParseIdRoundTrip(n);
  }

  /** A token followed by the terminator is one token, terminator included. */
  lemma TrailingToken(last: string)
    requires IsToken(last, AttrNameDelims)
    ensures StrTok(last + "\n", AttrNameDelims) == Some((last + "\n", []))
  {
    var t := last + "\n";
    forall k | 0 <= k < |t|
      ensures t[k] !in AttrNameDelims
    {
      if k < |last| {
        assert t[k] == last[k];
      }
    }
    assert t == [] + t + [];
    StrTokWord([], t, [], AttrNameDelims);
  }

  /** `if(ndsnum && clsnum > ndsnum) clsnum = ndsnum`. */
  function Clamp(c: Counts): (r: Counts)
    ensures r.ndsnum == c.ndsnum
    ensures r.ndsnum > 0 ==> r.clsnum <= r.ndsnum
    ensures c.ndsnum == 0 || c.clsnum <= c.ndsnum ==> r == c
  {
    if c.ndsnum > 0 && c.clsnum > c.ndsnum then c.(clsnum := c.ndsnum) else c
  }

  /** The counts a header line yields: its attributes read into `c`, then clamped. */
  function HeaderCounts(line: string, c: Counts): Counts
    requires KindOf(line) == Header
  {
    var Some((tok, rest)) := StrTok(line[1..], AttrNameDelims);
    Clamp(Attributes(tok, rest, 0, c).0)
  }

  /**
   * The attribute loop of the header line `line` (a `Header` line), over the
   * `strtok` cursor: reads at most two attributes and stops at an unknown one.
   */
  method ParseHeaderLine(line: string, c0: Counts) returns (c: Counts)
    requires KindOf(line) == Header
    ensures c == HeaderCounts(line, c0)
  {
    var Some((tok, rest)) := StrTok(line[1..], AttrNameDelims);
    var attrs := 0;
    c := c0;
    ghost var goal := Attributes(tok, rest, 0, c0);
    while true
      invariant attrs < 2 && Attributes(tok, rest, attrs, c) == goal
      decreases |rest|
    {
      var name := Lowercase(tok);
      if name == "clusters" {
        var pv := ParseValue(rest);
        rest := pv.1;
        c := c.(clsnum := pv.0);
        attrs := attrs + 1;
      } else if name == "nodes" {
        var pv := ParseValue(rest);
        rest := pv.1;
        c := c.(ndsnum := pv.0);
        attrs := attrs + 1;
      } else {
        break;
      }
      var next := StrTok(rest, AttrNameDelims);
      if next.None? || attrs >= 2 {
        break;
      }
      tok, rest := next.value.0, next.value.1;
    }
    c := Clamp(c);
  }

  /**
   * Whether `readline` returns true after reading `line`: `fgets` stops at
   * the `\n` and leaves the end of the file unreached.  A last line without
   * `\n` reaches the end of the file, so `readline` returns false although
   * the line is in the buffer.
   */
  predicate Terminated(line: string)
  {
    line != [] && line[|line| - 1] == '\n'
  }

  /**
   * The end of the lines that successive `readline` calls read from line `j`
   * on while they return true: the first line without `\n`, or the end.
   */
  function ReadEnd(lines: seq<string>, j: nat): (e: nat)
    requires j <= |lines|
    ensures j <= e <= |lines|
    ensures forall k :: j <= k < e ==> Terminated(lines[k])
    ensures e < |lines| ==> !Terminated(lines[e])
    decreases |lines| - j
  {
    if j == |lines| || !Terminated(lines[j]) then j else ReadEnd(lines, j + 1)
  }

  /**
   * The end of the lines the cluster loop of `load` processes from line
   * `next` on: `do { … } while(line.readline(file))` processes line `next`
   * from the buffer whatever `readline` returned for it, then each further
   * line for which `readline` returns true.
   */
  function LoadEnd(lines: seq<string>, next: nat): nat
    requires next <= |lines|
  {
    if next == |lines| then next else ReadEnd(lines, next + 1)
  }

  /** A last line without `\n` is processed only when it is line `next`, already in the buffer. */
  lemma UnterminatedLastLineDropped(lines: seq<string>, next: nat)
    requires next < |lines| - 1 && !Terminated(lines[|lines| - 1])
    ensures LoadEnd(lines, next) < |lines|
  {
  }

  /** When every line after `next` ends with `\n`, all lines from `next` on are processed. */
  lemma {:induction false} TerminatedLinesAllRead(lines: seq<string>, j: nat)
    requires j <= |lines| && forall k :: j <= k < |lines| ==> Terminated(lines[k])
    ensures ReadEnd(lines, j) == |lines|
    decreases |lines| - j
  {
    if j < |lines| {
      TerminatedLinesAllRead(lines, j + 1);
    }
  }

  /** The first `n` lines are blank lines and comments only, each read by a successful `readline`. */
  predicate Preamble(lines: seq<string>, n: nat)
    requires n <= |lines|
  {
    n == 0 || (Preamble(lines, n - 1) && Terminated(lines[n - 1]) && KindOf(lines[n - 1]).Skipped())
  }

  /**
   * No header: the lines before `next` are blank or comments, and `next` is
   * the end, a data line or a last line without `\n`.
   */
  predicate NoHeaderBefore(lines: seq<string>, next: nat)
    requires next <= |lines|
  {
    Preamble(lines, next) && (next == |lines| || KindOf(lines[next]) == Data || !Terminated(lines[next]))
  }

  /** The line before `next` is the header, ended by `\n`, and only blank lines and comments precede it. */
  predicate HeaderBefore(lines: seq<string>, next: nat)
    requires next <= |lines|
  {
    0 < next && Preamble(lines, next - 1) && Terminated(lines[next - 1]) && KindOf(lines[next - 1]) == Header
  }

  /**
   * Where `parseHeader` stops when it looks at line `i` next, and the header
   * line it read, if any: its loop `while(line.readline(fcls))` ends at a
   * line without `\n`, which stays in the buffer unexamined; otherwise blank
   * lines and comments are skipped, a data line stops it there, and a
   * header line stops it at the line after it.
   */
  function HeaderScan(lines: seq<string>, i: nat): (r: (Option<nat>, nat))
    requires i <= |lines|
    ensures i <= r.1 <= |lines|
    ensures r.0.Some? ==> r.0.value == r.1 - 1 && KindOf(lines[r.0.value]) == Header && Terminated(lines[r.0.value])
    decreases |lines| - i
  {
    if i == |lines| then (None, |lines|)
    else if !Terminated(lines[i]) then (None, i)
    else match KindOf(lines[i])
      case Data => (None, i)
      case Header => (Some(i), i + 1)
      case _ => HeaderScan(lines, i + 1)
  }

  /**
   * The scan stops at the first data line, or after the first header line,
   * past the blank lines and comments only.
   */
  lemma {:induction false} HeaderScanCases(lines: seq<string>, i: nat)
    requires i <= |lines| && Preamble(lines, i)
    ensures var r := HeaderScan(lines, i);
      (r.0.None? ==> NoHeaderBefore(lines, r.1)) && (r.0.Some? ==> HeaderBefore(lines, r.1))
    decreases |lines| - i
  {
    if i < |lines| && Terminated(lines[i]) && KindOf(lines[i]).Skipped() {
      HeaderScanCases(lines, i + 1);
    }
  }

  /**
   * `parseHeader` over the lines of a file: `next` is the line the cluster
   * parsing starts with, and the counts are the header's, when there is one.
   */
  method ParseHeader(lines: seq<string>, c0: Counts) returns (c: Counts, next: nat)
    ensures next == HeaderScan(lines, 0).1
    ensures c == match HeaderScan(lines, 0).0
      case None => c0
      case Some(h) => HeaderCounts(lines[h], c0)
  {
    var i := 0;
    while i < |lines|
      invariant i <= |lines| && HeaderScan(lines, i) == HeaderScan(lines, 0)
    {
      if !Terminated(lines[i]) {
        return c0, i;
      }
      var kind := KindOf(lines[i]);
      if kind == Data {
        return c0, i;
      } else if kind == Header {
        c := ParseHeaderLine(lines[i], c0);
        return c, i + 1;
      }
      i := i + 1;
    }
    return c0, |lines|;
  }

  // ---------------------------------------------------------------------------
  // estimateNodes

  function Pow10(d: nat): (p: nat)
    ensures p >= 1
  {
    if d == 0 then 1 else 10 * Pow10(d - 1)
  }

  /**
   * The nodes estimated in digit band `d` of a file of `f` bytes: the bytes
   * between 10^(d-1) and 10^d, `(f - f % 10^(d-1)) % 10^d`, divided by
   * `d + 1`, the width of a `d`-digit id and its delimiter.
   */
  function Band(f: nat, d: nat): int
    requires d >= 1
  {
    (f - f % Pow10(d - 1)) % Pow10(d) / (d + 1)
  }

  /** The nodes estimated in the first `d` digit bands. */
  function BandEstimate(f: nat, d: nat): int
  {
    if d == 0 then 0 else BandEstimate(f, d - 1) + Band(f, d)
  }

  /** The bytes of band `d` are the difference of the remainders by 10^d and by 10^(d-1). */
  lemma ModPow10Grows(f: nat, d: nat)
    requires d >= 1
    ensures f % Pow10(d - 1) <= f % Pow10(d)
    ensures (f - f % Pow10(d - 1)) % Pow10(d) == f % Pow10(d) - f % Pow10(d - 1)
  {
    ModTenfold(f, Pow10(d - 1));
  }

  lemma ModTenfold(f: nat, p: int)
    requires p > 0
    ensures f % p <= f % (10 * p)
    ensures (f - f % p) % (10 * p) == f % (10 * p) - f % p
  {
    var q := 10 * p;
    var a, r := f / q, f % q;
    assert f == q * a + r && 0 <= r < q;
    var b, s := r / p, r % p;
    assert r == p * b + s && 0 <= s < p;
    assert b >= 0;
    assert q * a == p * (10 * a);
    assert p * (10 * a) + p * b == p * (10 * a + b);
    ModUnique(f, p, 10 * a + b, s);
    ModUnique(f - s, q, a, p * b);
  }

  /** A number below 10^d and, when d > 1, at least 10^(d-1), has `d` decimal digits. */
  lemma {:induction false} DigitCount(f: nat, d: nat)
    requires d >= 1 && f < Pow10(d) && (d == 1 || Pow10(d - 1) <= f)
    ensures |DecimalString(f)| == d
  {
    if f >= 10 {
      assert d >= 2;
      var q, m := f / 10, f % 10;
      assert f == 10 * q + m && 0 <= m < 10;
      assert Pow10(d) == 10 * Pow10(d - 1);
      assert q < Pow10(d - 1);
      if d > 2 {
        assert Pow10(d - 1) == 10 * Pow10(d - 2);
        assert Pow10(d - 2) <= q;
      }
      DigitCount(q, d - 1);
    }
  }

  /**
   * One round of the band loop of `estimateNodes`: with `magn` = 10^(img-1)
   * not above `f`, the next magnitude is 10^img and adding band `img` to the
   * wrapped estimate gives the wrapped estimate of the bands up to `img`.
   */
  lemma BandStep(f: nat, img: nat, magn: int, reminder: int, nds: int)
    requires 2 <= img && magn == Pow10(img - 1) && magn <= f && reminder == f % magn
    requires nds == BandEstimate(f, img - 1) % IdLimit
    ensures magn * 10 == Pow10(img) && magn < magn * 10
    ensures (nds + (f - reminder) % (magn * 10) / (img + 1)) % IdLimit == BandEstimate(f, img) % IdLimit
  {
    assert Pow10(img) == 10 * magn;
    var b := Band(f, img);
    assert b == (f - reminder) % (magn * 10) / (img + 1);
    assert BandEstimate(f, img) == BandEstimate(f, img - 1) + b;
    ModAddLeft(BandEstimate(f, img - 1), b, IdLimit);
  }

  /** The first band: the last digit's bytes, two per id. */
  lemma FirstBand(f: nat)
    ensures (f % 10) / 2 == BandEstimate(f, 1) % IdLimit
  {
    assert Pow10(1) == 10 && Pow10(0) == 1;
    assert BandEstimate(f, 1) == Band(f, 1) == (f % 10) / 2;
    ModSmall((f % 10) / 2, IdLimit);
  }

  /** Once the bands reach the file size's digit count, the wrapped estimate is at most half the size. */
  lemma AllBands(f: nat, d: nat, nds: int)
    requires f > 0 && d >= 1 && f < Pow10(d) && (d == 1 || Pow10(d - 1) <= f)
    requires nds == BandEstimate(f, d) % IdLimit
    ensures d == |DecimalString(f)|
    ensures 0 <= 2 * nds <= f
  {
    DigitCount(f, d);
    BandEstimateAtMostHalf(f, d);
    ModSmall(f, Pow10(d));
    ModAtMost(BandEstimate(f, d), IdLimit);
  }

  /** Each band is estimated with at least two bytes per id, so twice the estimate stays within the bytes. */
  lemma {:induction false} BandEstimateAtMostHalf(f: nat, d: nat)
    ensures 0 <= 2 * BandEstimate(f, d) <= f % Pow10(d)
  {
    if d > 0 {
      BandEstimateAtMostHalf(f, d - 1);
      ModPow10Grows(f, d);
      var chunk := f % Pow10(d) - f % Pow10(d - 1);
      HalfOfQuotient(chunk, d + 1);
      assert Band(f, d) == chunk / (d + 1);
    }
  }

  /** Dividing an estimate of at most half the file size by a positive membership. */
  lemma EstimateQuotient(nds: int, m: real, f: nat)
    requires 0 <= 2 * nds <= f && m > 0.0
    ensures 0 <= (nds as real / m).Floor
    ensures m >= 1.0 ==> (nds as real / m).Floor <= f / 2
    ensures nds == 0 ==> (nds as real / m).Floor == 0
  {
    FloorOfQuotient(nds, m);
    assert f == 2 * (f / 2) + f % 2;
  }

  /**
   * The digit-band loop of `estimateNodes`: the bands of the file size are
   * estimated one by one into the 32-bit `Id` counter, which wraps.
   */
  method BandLoop(filesize: nat) returns (ndsnum: nat)
    ensures ndsnum == BandEstimate(filesize, |DecimalString(filesize)|) % IdLimit
    ensures 2 * ndsnum <= filesize
  {
    if filesize == 0 {
      assert |DecimalString(0)| == 1 && BandEstimate(0, 1) == 0;
      return 0;
    }
    var magn := 10;
    var img := 1;
    var reminder := filesize % magn;
    img := img + 1;
    ndsnum := reminder / img;
    FirstBand(filesize);
    while filesize >= magn
      invariant 1 <= img - 1 && magn == Pow10(img - 1) && reminder == filesize % magn
      invariant img - 1 == 1 || Pow10(img - 2) <= filesize
      invariant ndsnum == BandEstimate(filesize, img - 1) % IdLimit
      decreases filesize - magn
    {
      BandStep(filesize, img, magn, reminder, ndsnum);
      magn := magn * 10;
      img := img + 1;
      ndsnum := (ndsnum + (filesize - reminder) % magn / img) % IdLimit;
      reminder := filesize % magn;
    }
    AllBands(filesize, img - 1, ndsnum);
  }

  /**
   * `estimateNodes(filesize, membership)`: a non-positive membership is reset
   * to 1, and the band estimate of the file size is divided by the
   * membership and truncated.
   */
  method EstimateNodes(filesize: nat, membership: real) returns (r: nat)
    requires filesize < 10_000_000_000_000_000_000
    ensures var m := if membership <= 0.0 then 1.0 else membership;
      var estimate := (BandEstimate(filesize, |DecimalString(filesize)|) % IdLimit) as real;
      r == (estimate / m).Floor
    ensures filesize == 0 ==> r == 0
    ensures membership >= 1.0 || membership <= 0.0 ==> r <= filesize / 2
  {
    var m := membership;
    if m <= 0.0 {
      m := 1.0;
    }
    var ndsnum := BandLoop(filesize);
    EstimateQuotient(ndsnum, m, filesize);
    r := (ndsnum as real / m).Floor;
  }
}
