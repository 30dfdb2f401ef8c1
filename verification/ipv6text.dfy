/** The IPv6 text forms: the literal (section 2.2 of RFC 4291), the full
    form of eight upper-case four-digit groups, the abbreviation, the flat
    32-digit hexadecimal string and the 16-octet dotted-decimal form the
    subnet arithmetic works on.

    An address is its eight 16-bit group values. `Full` is the meaning of a
    literal; the methods run the class's loops and are proved to compute it. */
module IPv6Text {
  import opened Wrappers
  import opened Strings
  import opened Numerals
  import opened ZeroRuns

  // ------------------------------------------------------------ addresses

  predicate IsAddress(a: seq<nat>)
  {
    |a| == 8 && forall i :: 0 <= i < 8 ==> a[i] < 65536
  }

  function Zeros(n: nat): (z: seq<nat>)
    ensures |z| == n && forall i :: 0 <= i < n ==> z[i] == 0
  {
    seq(n, _ => 0)
  }

  // ------------------------------------------------------ literal grammar

  /** One written group: one to four hexadecimal digits. */
  predicate HexGroup(g: string)
  {
    1 <= |g| <= 4 && AllHex(g)
  }

  /** The index of the first empty field at or after `i`, or `|f|`. */
  function EmptyFrom(f: seq<string>, i: nat): (k: nat)
    requires i <= |f|
    ensures i <= k <= |f| && (k < |f| ==> f[k] == [])
    ensures forall j :: i <= j < k ==> f[j] != []
    decreases |f| - i
  {
    if i == |f| || f[i] == [] then i else EmptyFrom(f, i + 1)
  }

  /** The index of the last empty field before `n`, or -1. */
  function EmptyBefore(f: seq<string>, n: nat): (m: int)
    requires n <= |f|
    ensures -1 <= m < n && (m >= 0 ==> f[m] == [])
    ensures forall j :: m < j < n ==> f[j] != []
  {
    if n == 0 then -1 else if f[n - 1] == [] then n - 1 else EmptyBefore(f, n - 1)
  }

  /** The index of the first empty field, or `|f|`. */
  function FirstEmpty(f: seq<string>): (k: nat)
    ensures k <= |f| && (k < |f| ==> f[k] == [])
    ensures forall i :: 0 <= i < k ==> f[i] != []
  {
    EmptyFrom(f, 0)
  }

  /** The index of the last empty field, or -1. */
  function LastEmpty(f: seq<string>): (m: int)
    ensures -1 <= m < |f| && (m >= 0 ==> f[m] == [])
    ensures forall i :: m < i < |f| ==> f[i] != []
  {
    EmptyBefore(f, |f|)
  }

  /** The fields of a literal between its colons, as `IPv6Check` accepts
      them: eight groups, or one `::` (the block of empty fields from
      `FirstEmpty` to `LastEmpty`: one field inside, two at either end,
      three for `::` alone) standing for the missing zero groups, with at
      most seven groups written. */
  predicate ValidFields(f: seq<string>)
  {
    var k := FirstEmpty(f);
    if k == |f| then
      |f| == 8 && forall i {:trigger HexGroup(f[i])} :: 0 <= i < |f| ==> HexGroup(f[i])
    else
      var m := LastEmpty(f);
      && (forall i {:trigger HexGroup(f[i])} :: 0 <= i < k ==> HexGroup(f[i]))
      && (forall i {:trigger HexGroup(f[i])} :: m < i < |f| ==> HexGroup(f[i]))
      && (forall i :: k <= i <= m ==> f[i] == [])
      && (if k == 0 && m == |f| - 1 then |f| == 3
          else if k == 0 then m == 1
          else if m == |f| - 1 then k == m - 1
          else k == m)
      && k + (|f| - 1 - m) <= 7
  }

  /** `IPv6Check`: an IPv6 literal without an embedded IPv4 tail. */
  predicate IPv6Check(s: string)
  {
    ValidFields(Split(s, ':'))
  }

  function GroupValues(gs: seq<string>): (v: seq<nat>)
    ensures |v| == |gs| && forall i :: 0 <= i < |gs| ==> v[i] == HexDec(gs[i])
  {
    seq(|gs|, i requires 0 <= i < |gs| => HexDec(gs[i]))
  }

  /** The groups a literal denotes: the written ones, with the `::` standing
      for as many zero groups as make eight. */
  function AddressOf(f: seq<string>): (a: seq<nat>)
    requires ValidFields(f)
    ensures IsAddress(a)
  {
    WrittenGroupsBounded(f);
    var k := FirstEmpty(f);
    if k == |f| then GroupValues(f)
    else
      var m := LastEmpty(f);
      GroupValues(f[..k]) + Zeros(8 - k - (|f| - 1 - m)) + GroupValues(f[m + 1..])
  }

  function Address(s: string): (a: seq<nat>)
    requires IPv6Check(s)
    ensures IsAddress(a)
  {
    AddressOf(Split(s, ':'))
  }

  // ------------------------------------------------------------ full form

  /** The eight groups as four upper-case hexadecimal digits each. */
  function FullGroups(a: seq<nat>): (g: seq<string>)
    requires IsAddress(a)
    ensures |g| == 8 && forall i :: 0 <= i < 8 ==> g[i] == FixedHex(a[i], 4)
  {
    seq(8, i requires 0 <= i < 8 => FixedHex(a[i], 4))
  }

  function FullText(a: seq<nat>): string
    requires IsAddress(a)
  {
    Join(FullGroups(a), ":")
  }

  /** What `IPv6ToFull` returns: the full form of a valid literal, or the
      exception it throws for any other text. */
  function Full(s: string): Result<string>
  {
    if IPv6Check(s) then Ok(FullText(Address(s)))
    else Err(FormatError)
  }

  // ------------------------------------------------------- grammar lemmas

  lemma HexGroupValue(g: string)
    requires HexGroup(g)
    ensures HexDec(g) == HexValue(g) && HexDec(g) < 65536
    ensures Upper(PadLeft(g, 4, '0')) == FixedHex(HexDec(g), 4)
    ensures PadLeft(g, 4, '0') != [] && ':' !in PadLeft(g, 4, '0')
  {
    HexDecHex(g);
    HexValueBound(g, 4);
    Pow16Values();
    var p := PadLeft(g, 4, '0');
    assert p == Rep(4 - |g|, '0') + g;
    HexValueZeroPrefix(4 - |g|, g);
    UpperHex(p);
    assert !IsHexDigit(':');
    assert forall i :: 0 <= i < |p| ==> p[i] != ':';
  }

  lemma {:induction false} ValidFieldsShape(f: seq<string>)
    requires ValidFields(f)
    ensures |f| <= 9
    ensures FirstEmpty(f) < |f| ==> FirstEmpty(f) <= LastEmpty(f) && 9 - |f| >= 0
    ensures FirstEmpty(f) < |f| ==> 8 - FirstEmpty(f) - (|f| - 1 - LastEmpty(f)) == 9 - |f| + LastEmpty(f) - FirstEmpty(f)
  {
  }

  lemma WrittenGroupsBounded(f: seq<string>)
    requires ValidFields(f)
    ensures FirstEmpty(f) == |f| ==> |f| == 8 && forall i :: 0 <= i < |f| ==> HexDec(f[i]) < 65536
    ensures forall i :: 0 <= i < |f| && (i < FirstEmpty(f) || i > LastEmpty(f)) ==> HexDec(f[i]) < 65536
  {
    forall i | 0 <= i < |f| && (i < FirstEmpty(f) || i > LastEmpty(f))
      ensures HexDec(f[i]) < 65536
    {
      HexGroupValue(f[i]);
    }
    if FirstEmpty(f) == |f| {
      forall i | 0 <= i < |f|
        ensures HexDec(f[i]) < 65536
      {
        HexGroupValue(f[i]);
      }
    }
  }

  /** The full form is eight colon-separated groups of four upper-case hex digits. */
  lemma FullTextShape(a: seq<nat>)
    requires IsAddress(a)
    ensures Split(FullText(a), ':') == FullGroups(a)
    ensures forall i, j :: 0 <= i < 8 && 0 <= j < 4 ==> IsUpperHexDigit(FullGroups(a)[i][j])
  {
    var g := FullGroups(a);
    forall i | 0 <= i < 8
      ensures ':' !in g[i]
      ensures forall j :: 0 <= j < 4 ==> IsUpperHexDigit(g[i][j])
    {
      FixedHexUpper(a[i], 4);
    }
    SplitJoin(g, ':');
  }

  /** The full form is itself a literal, denoting the same address. */
  lemma FullTextParses(a: seq<nat>)
    requires IsAddress(a)
    ensures IPv6Check(FullText(a)) && Address(FullText(a)) == a
  {
    FullTextShape(a);
    var g := FullGroups(a);
    Pow16Values();
    forall i | 0 <= i < 8
      ensures HexGroup(g[i]) && HexDec(g[i]) == a[i]
    {
      HexValueFixed(a[i], 4);
      HexDecHex(g[i]);
    }
    assert FirstEmpty(g) == 8;
  }

  /** `IPv6ToFull` is idempotent. */
  lemma FullIdempotent(s: string)
    requires Full(s).Ok?
    ensures Full(Full(s).value) == Full(s)
  {
    FullTextParses(Address(s));
  }

  // --------------------------------------------------------- IPv6ToFull

  /** `array_search('', $IPArr)`: the key of the first empty field. */
  function SearchEmpty(f: seq<string>): (r: Option<nat>)
    ensures r.Some? ==> r.value < |f| && f[r.value] == []
  {
    if FirstEmpty(f) < |f| then Some(FirstEmpty(f)) else None
  }

  /** `$Num` running from `c - 1` down to 0 appends `c` zero groups (none when `c` is negative). */
  function ZeroGroups(c: int): (r: seq<string>)
    ensures |r| == (if c > 0 then c else 0) && forall i :: 0 <= i < |r| ==> r[i] == "0000"
  {
    if c <= 0 then [] else ZeroGroups(c - 1) + ["0000"]
  }

  /** The groups the loop of `IPv6ToFull` has emitted after `n` fields. */
  function Pieces(f: seq<string>, nullKey: Option<nat>, n: nat): seq<string>
    requires n <= |f|
  {
    if n == 0 then []
    else Pieces(f, nullKey, n - 1)
         + (if nullKey == Some(n - 1) then ZeroGroups(9 - |f|) else [PadLeft(f[n - 1], 4, '0')])
  }

  lemma {:induction false} PiecesBefore(f: seq<string>, nullKey: Option<nat>, n: nat)
    requires n <= |f|
    requires forall j :: 0 <= j < n ==> nullKey != Some(j)
    ensures Pieces(f, nullKey, n) == seq(n, i requires 0 <= i < n => PadLeft(f[i], 4, '0'))
  {
    if n > 0 {
      PiecesBefore(f, nullKey, n - 1);
    }
  }

  lemma {:induction false} PiecesAfter(f: seq<string>, k: nat, n: nat)
    requires k < n <= |f|
    ensures Pieces(f, Some(k), n)
         == seq(k, i requires 0 <= i < k => PadLeft(f[i], 4, '0'))
            + ZeroGroups(9 - |f|)
            + seq(n - k - 1, i requires 0 <= i < n - k - 1 => PadLeft(f[k + 1 + i], 4, '0'))
  {
    if n == k + 1 {
      PiecesBefore(f, Some(k), k);
    } else {
      PiecesAfter(f, k, n - 1);
    }
  }

  /** What the loop emits for the `i`-th group of a valid literal. */
  predicate GoodPiece(piece: string, v: nat)
  {
    piece != [] && ':' !in piece && Upper(piece) == FixedHex(v, 4)
  }

  lemma ZeroPiece()
    ensures GoodPiece("0000", 0)
  {
    FixedHexZero(4);
    assert Upper("0000") == "0000";
  }

  lemma {:induction false} PiecesNoGap(f: seq<string>)
    requires ValidFields(f) && FirstEmpty(f) == |f|
    ensures var p := Pieces(f, SearchEmpty(f), |f|);
      |p| == 8 && forall i :: 0 <= i < 8 ==> GoodPiece(p[i], AddressOf(f)[i])
  {
    var p := Pieces(f, None, |f|);
    PiecesBefore(f, None, |f|);
    forall i | 0 <= i < 8
      ensures GoodPiece(p[i], AddressOf(f)[i])
    {
      HexGroupValue(f[i]);
    }
  }

  /** Element `i` of three sequences laid end to end. */
  lemma ConcatAt<T>(x: seq<T>, y: seq<T>, w: seq<T>, i: nat)
    requires i < |x| + |y| + |w|
    ensures (x + y + w)[i] == if i < |x| then x[i] else if i < |x| + |y| then y[i - |x|] else w[i - |x| - |y|]
  {
  }

  /** A literal's fields whose empty block runs from `k` to `m`. */
  predicate GapLayout(f: seq<string>, k: nat, m: nat)
  {
    && k <= m < |f| <= 9
    && (forall j :: k <= j <= m ==> f[j] == [])
    && (forall j :: 0 <= j < |f| && (j < k || j > m) ==> HexGroup(f[j]))
    && 8 - k - (|f| - 1 - m) >= 0
  }

  /** What `IPv6ToFull` emits when the first empty field is at `k`. */
  function GapPieces(f: seq<string>, k: nat): seq<string>
    requires k < |f|
  {
    seq(k, i requires 0 <= i < k => PadLeft(f[i], 4, '0'))
    + ZeroGroups(9 - |f|)
    + seq(|f| - k - 1, i requires 0 <= i < |f| - k - 1 => PadLeft(f[k + 1 + i], 4, '0'))
  }

  /** The address such a literal denotes. */
  function GapAddress(f: seq<string>, k: nat, m: nat): seq<nat>
    requires GapLayout(f, k, m)
  {
    GroupValues(f[..k]) + Zeros(8 - k - (|f| - 1 - m)) + GroupValues(f[m + 1..])
  }

  lemma GapPieceLead(f: seq<string>, k: nat, m: nat, i: nat)
    requires GapLayout(f, k, m) && i < k
    ensures GoodPiece(GapPieces(f, k)[i], GapAddress(f, k, m)[i])
  {
    HexGroupValue(f[i]);
  }

  lemma GapPieceZero(f: seq<string>, k: nat, m: nat, i: nat)
    requires GapLayout(f, k, m) && k <= i < k + 9 - |f|
    ensures GoodPiece(GapPieces(f, k)[i], GapAddress(f, k, m)[i])
  {
    ZeroPiece();
  }

  lemma GapPieceTail(f: seq<string>, k: nat, m: nat, i: nat)
    requires GapLayout(f, k, m) && k + 9 - |f| <= i < 8
    ensures GoodPiece(GapPieces(f, k)[i], GapAddress(f, k, m)[i])
  {
    var c := 9 - |f|;
    var z := 8 - k - (|f| - 1 - m);
    var j := i + 1 - c;
    var s3 := seq(|f| - k - 1, i requires 0 <= i < |f| - k - 1 => PadLeft(f[k + 1 + i], 4, '0'));
    ConcatAt(seq(k, i requires 0 <= i < k => PadLeft(f[i], 4, '0')), ZeroGroups(c), s3, i);
    assert GapPieces(f, k)[i] == PadLeft(f[j], 4, '0');
    var g2 := GroupValues(f[m + 1..]);
    ConcatAt(GroupValues(f[..k]), Zeros(z), g2, i);
    if j <= m {
      ZeroPiece();
      assert f[j] == [];
    } else {
      assert f[m + 1..][i - k - z] == f[j];
      HexGroupValue(f[j]);
    }
  }

  /** The `i`-th emitted group against the `i`-th address group. */
  lemma GapPieceAt(f: seq<string>, k: nat, m: nat, i: nat)
    requires GapLayout(f, k, m) && i < 8
    ensures |GapPieces(f, k)| == 8 && |GapAddress(f, k, m)| == 8
    ensures GoodPiece(GapPieces(f, k)[i], GapAddress(f, k, m)[i])
  {
    if i < k {
      GapPieceLead(f, k, m, i);
    } else if i < k + 9 - |f| {
      GapPieceZero(f, k, m, i);
    } else {
      GapPieceTail(f, k, m, i);
    }
  }

  lemma {:induction false} PiecesGapAt(f: seq<string>, i: nat)
    requires ValidFields(f) && FirstEmpty(f) < |f| && i < 8
    ensures var p := Pieces(f, SearchEmpty(f), |f|);
      |p| == 8 && GoodPiece(p[i], AddressOf(f)[i])
  {
    var k := FirstEmpty(f);
    var m := LastEmpty(f);
    ValidFieldsShape(f);
    PiecesAfter(f, k, |f|);
    GapPieceAt(f, k, m, i);
  }

  /** For a valid literal the loop emits the eight groups of its full form,
      up to case. */
  lemma PiecesShape(f: seq<string>)
    requires ValidFields(f)
    ensures var p := Pieces(f, SearchEmpty(f), |f|);
      |p| == 8 && forall i :: 0 <= i < 8 ==> GoodPiece(p[i], AddressOf(f)[i])
  {
    if FirstEmpty(f) == |f| {
      PiecesNoGap(f);
    } else {
      PiecesGapAt(f, 0);
      forall i | 0 <= i < 8
        ensures GoodPiece(Pieces(f, SearchEmpty(f), |f|)[i], AddressOf(f)[i])
      {
        PiecesGapAt(f, i);
      }
    }
  }

  /** Trimming and upper-casing what the loop emitted gives the full form. */
  lemma PiecesFull(f: seq<string>)
    requires ValidFields(f)
    ensures Upper(RTrim(Terminated(Pieces(f, SearchEmpty(f), |f|), ':'), ':')) == FullText(AddressOf(f))
  {
    var p := Pieces(f, SearchEmpty(f), |f|);
    PiecesShape(f);
    GoodPiecesFull(p, AddressOf(f));
  }

  /** Eight pieces that are the groups up to case, colon-free, give the full form. */
  lemma GoodPiecesFull(p: seq<string>, a: seq<nat>)
    requires IsAddress(a) && |p| == 8
    requires forall i :: 0 <= i < 8 ==> GoodPiece(p[i], a[i])
    ensures Upper(RTrim(Terminated(p, ':'), ':')) == FullText(a)
  {
    RTrimTerminated(p, ':');
    UpperJoin(p, ':');
    assert seq(|p|, i requires 0 <= i < |p| => Upper(p[i])) == FullGroups(a);
  }

  /** `s` followed by `c` copies of "0000:". */
  function AppendZeros(s: string, c: nat): string
  {
    if c == 0 then s else AppendZeros(s, c - 1) + "0000:"
  }

  /** The string `$IPStr` the loop of `IPv6ToFull` has built after `n` fields. */
  function Emitted(f: seq<string>, nullKey: Option<nat>, n: nat): string
    requires n <= |f|
  {
    if n == 0 then ""
    else if nullKey == Some(n - 1) then AppendZeros(Emitted(f, nullKey, n - 1), if |f| <= 9 then 9 - |f| else 0)
    else Emitted(f, nullKey, n - 1) + PadLeft(f[n - 1], 4, '0') + ":"
  }

  lemma {:induction false} AppendZerosGroups(s: string, c: nat)
    ensures AppendZeros(s, c) == s + Terminated(ZeroGroups(c), ':')
  {
    if c == 0 {
      assert s + "" == s;
    } else {
      var t := Terminated(ZeroGroups(c - 1), ':');
      AppendZerosGroups(s, c - 1);
      TerminatedSnoc(ZeroGroups(c - 1), "0000", ':');
      assert "0000" + [':'] == "0000:";
      assert Terminated(ZeroGroups(c), ':') == t + "0000:";
      AppendAssoc(s, t, "0000:");
    }
  }

  lemma {:induction false} TerminatedConcat(x: seq<string>, y: seq<string>, c: char)
    ensures Terminated(x + y, c) == Terminated(x, c) + Terminated(y, c)
    decreases |y|
  {
    if |y| == 0 {
      assert x + y == x;
    } else {
      var y' := y[..|y| - 1];
      assert x + y == (x + y') + [y[|y| - 1]];
      assert y == y' + [y[|y| - 1]];
      TerminatedConcat(x, y', c);
      TerminatedSnoc(x + y', y[|y| - 1], c);
      TerminatedSnoc(y', y[|y| - 1], c);
    }
  }

  lemma {:induction false} EmittedPieces(f: seq<string>, nullKey: Option<nat>, n: nat)
    requires n <= |f|
    ensures Emitted(f, nullKey, n) == Terminated(Pieces(f, nullKey, n), ':')
  {
    if n > 0 {
      EmittedPieces(f, nullKey, n - 1);
      var before := Pieces(f, nullKey, n - 1);
      if nullKey == Some(n - 1) {
        var c := if |f| <= 9 then 9 - |f| else 0;
        assert ZeroGroups(9 - |f|) == ZeroGroups(c);
        AppendZerosGroups(Emitted(f, nullKey, n - 1), c);
        TerminatedConcat(before, ZeroGroups(c), ':');
      } else {
        TerminatedSnoc(before, PadLeft(f[n - 1], 4, '0'), ':');
      }
    }
  }

  /** What the loop of `IPv6ToFull` builds, trimmed and upper-cased, is the full form. */
  lemma EmittedFull(ip: string)
    requires IPv6Check(ip)
    ensures var f := Split(ip, ':');
      Full(ip) == Ok(RTrim(Upper(Emitted(f, SearchEmpty(f), |f|)), ':'))
  {
    var f := Split(ip, ':');
    RTrimUpper(Emitted(f, SearchEmpty(f), |f|), ':');
    EmittedPieces(f, SearchEmpty(f), |f|);
    PiecesFull(f);
  }

  /** `IPv6ToFull`: validates, splits at the colons, has the fields emitted,
      then upper-cases and trims the final colon. */
  method IPv6ToFull(ip: string) returns (r: Result<string>)
    ensures r == Full(ip)
  {
    if !IPv6Check(ip) {
      return Err(FormatError);
    }
    var ipStr := EmitFields(Split(ip, ':'));
    EmittedFull(ip);
    r := Ok(RTrim(Upper(ipStr), ':'));
  }

  /** The loops of `IPv6ToFull`: the first empty field is expanded into
      `9 - |f|` zero groups and every other field is padded to four digits,
      each followed by a colon. */
  method EmitFields(f: seq<string>) returns (ipStr: string)
    ensures ipStr == Emitted(f, SearchEmpty(f), |f|)
  {
    ipStr := "";
    var nullKey := SearchEmpty(f);
    var key := 0;
    while key < |f|
      invariant 0 <= key <= |f|
      invariant ipStr == Emitted(f, nullKey, key)
    {
      if nullKey == Some(key) {
        var num := 8 - |f|;
        while num >= 0
          invariant num <= 8 - |f| && (8 - |f| >= -1 ==> -1 <= num) && (8 - |f| < -1 ==> num == 8 - |f|)
          invariant ipStr == AppendZeros(Emitted(f, nullKey, key), 8 - |f| - num)
        {
          ipStr := ipStr + "0000:";
          num := num - 1;
        }
      } else {
        ipStr := ipStr + PadLeft(f[key], 4, '0') + ":";
      }
      key := key + 1;
    }
  }

  // ---------------------------------------------- hexadecimal and dotted

  /** The sixteen octets of an address, most significant first. */
  function Octets(a: seq<nat>): (o: seq<nat>)
    requires IsAddress(a)
    ensures |o| == 16 && forall i :: 0 <= i < 16 ==> o[i] < 256
  {
    seq(16, i requires 0 <= i < 16 => if i % 2 == 0 then a[i / 2] / 256 else a[i / 2] % 256)
  }

  /** The eight groups of sixteen octets. */
  function GroupsOf(o: seq<nat>): (a: seq<nat>)
    requires |o| == 16 && forall i :: 0 <= i < 16 ==> o[i] < 256
    ensures IsAddress(a)
  {
    seq(8, i requires 0 <= i < 8 => o[2 * i] * 256 + o[2 * i + 1])
  }

  predicate IsOctets(o: seq<nat>)
  {
    |o| == 16 && forall i :: 0 <= i < 16 ==> o[i] < 256
  }

  /** The two octets of group `i`. */
  lemma OctetsAt(a: seq<nat>, i: nat)
    requires IsAddress(a) && i < 8
    ensures Octets(a)[2 * i] == a[i] / 256 && Octets(a)[2 * i + 1] == a[i] % 256
  {
    assert (2 * i) % 2 == 0 && (2 * i) / 2 == i;
    assert (2 * i + 1) % 2 == 1 && (2 * i + 1) / 2 == i;
  }

  lemma GroupsOfOctets(a: seq<nat>)
    requires IsAddress(a)
    ensures GroupsOf(Octets(a)) == a
  {
    forall i | 0 <= i < 8
      ensures GroupsOf(Octets(a))[i] == a[i]
    {
      OctetsAt(a, i);
    }
  }

  lemma OctetsOfGroups(o: seq<nat>)
    requires IsOctets(o)
    ensures Octets(GroupsOf(o)) == o
  {
    forall i | 0 <= i < 16
      ensures Octets(GroupsOf(o))[i] == o[i]
    {
      var j := i / 2;
      DivModOctet(o[2 * j], o[2 * j + 1]);
    }
  }

  lemma DivModOctet(hi: nat, lo: nat)
    requires lo < 256
    ensures (hi * 256 + lo) / 256 == hi && (hi * 256 + lo) % 256 == lo
  {
  }

  /** Each octet as two upper-case hexadecimal digits. */
  function OctetDigits(a: seq<nat>): (d: seq<string>)
    requires IsAddress(a)
    ensures |d| == 16 && forall i :: 0 <= i < 16 ==> d[i] == FixedHex(Octets(a)[i], 2)
  {
    seq(16, i requires 0 <= i < 16 => FixedHex(Octets(a)[i], 2))
  }

  /** A group's four digits are its two octets' two digits each. */
  lemma GroupDigits(v: nat)
    requires v < 65536
    ensures FixedHex(v, 4) == FixedHex(v / 256, 2) + FixedHex(v % 256, 2)
  {
    Pow16Values();
    FixedHexConcat(v / 256, v % 256, 2, 2);
  }

  lemma {:induction false} FlattenByTwo(g: seq<string>, d: seq<string>)
    requires 2 * |g| == |d|
    requires forall i :: 0 <= i < |g| ==> g[i] == d[2 * i] + d[2 * i + 1]
    ensures Flatten(g) == Flatten(d)
  {
    if |g| > 0 {
      FlattenByTwo(g[1..], d[2..]);
      assert d[1..][1..] == d[2..];
      AppendAssoc(d[0], d[1], Flatten(d[2..]));
    }
  }

  lemma {:induction false} PairsFlatten(d: seq<string>)
    requires |d| >= 1 && forall i :: 0 <= i < |d| ==> |d[i]| == 2
    ensures Pairs(Flatten(d)) == d
  {
    if |d| == 1 {
      assert d[1..] == [];
      assert Flatten(d) == d[0] + Flatten([]);
      assert d[0] + [] == d[0];
    } else {
      var rest := Flatten(d[1..]);
      PairsFlatten(d[1..]);
      assert (d[0] + rest)[..2] == d[0];
      assert (d[0] + rest)[2..] == rest;
    }
  }

  /** The flat hexadecimal form: the full form's colons removed, leaving
      every octet as two upper-case digits. */
  lemma HexForm(a: seq<nat>)
    requires IsAddress(a)
    ensures Remove(FullText(a), ':') == Flatten(OctetDigits(a))
    ensures Pairs(Flatten(OctetDigits(a))) == OctetDigits(a)
  {
    var g := FullGroups(a);
    var d := OctetDigits(a);
    forall i | 0 <= i < 8
      ensures ':' !in g[i] && g[i] == d[2 * i] + d[2 * i + 1]
    {
      GroupDigitsAt(a, i);
    }
    RemoveJoin(g, ':');
    FlattenByTwo(g, d);
    PairsFlatten(d);
  }

  lemma GroupDigitsAt(a: seq<nat>, i: nat)
    requires IsAddress(a) && i < 8
    ensures ':' !in FullGroups(a)[i]
    ensures FullGroups(a)[i] == OctetDigits(a)[2 * i] + OctetDigits(a)[2 * i + 1]
  {
    FixedHexUpper(a[i], 4);
    assert !IsHexDigit(':');
    GroupDigits(a[i]);
    OctetsAt(a, i);
  }

  /** `IPv6CNHToHEX`: the 32 upper-case hexadecimal digits of a literal,
      two per octet, or the exception of `IPv6ToFull`. */
  function IPv6CNHToHEX(ip: string): (r: Result<string>)
    ensures r.Ok? <==> IPv6Check(ip)
    ensures r.Err? ==> r.error == FormatError
    ensures r.Ok? ==> r.value == Flatten(OctetDigits(Address(ip))) && |r.value| == 32
  {
    match Full(ip)
    case Ok(full) =>
      HexForm(Address(ip));
      FlattenLength(OctetDigits(Address(ip)), 2);
      Ok(Remove(full, ':'))
    case Err(e) => Err(e)
  }

  lemma {:induction false} FlattenLength(d: seq<string>, n: nat)
    requires forall i :: 0 <= i < |d| ==> |d[i]| == n
    ensures |Flatten(d)| == n * |d|
  {
    if |d| > 0 {
      FlattenLength(d[1..], n);
    }
  }

  /** The decimal numerals of the sixteen octets. */
  function OctetNumerals(o: seq<nat>): (d: seq<string>)
    requires IsOctets(o)
    ensures |d| == 16 && forall i :: 0 <= i < 16 ==> d[i] == NatStr(o[i])
    ensures AllNumerals(d)
  {
    NatStrsNumerals(o);
    seq(16, i requires 0 <= i < 16 => NatStr(o[i]))
  }

  lemma NatStrsNumerals(o: seq<nat>)
    requires |o| == 16
    ensures forall i :: 0 <= i < 16 ==> NatStr(o[i]) != [] && AllDigits(NatStr(o[i])) && DecValue(NatStr(o[i])) == o[i]
  {
    forall i | 0 <= i < 16
      ensures NatStr(o[i]) != [] && AllDigits(NatStr(o[i])) && DecValue(NatStr(o[i])) == o[i]
    {
      NatStrCanonical(o[i]);
    }
  }

  lemma OctetNumeralsFacts(o: seq<nat>)
    requires IsOctets(o)
    ensures forall i :: 0 <= i < 16 ==>
      '.' !in OctetNumerals(o)[i] && Canonical(OctetNumerals(o)[i]) && DecValue(OctetNumerals(o)[i]) == o[i]
    ensures Split(Join(OctetNumerals(o), "."), '.') == OctetNumerals(o)
  {
    forall i | 0 <= i < 16
      ensures '.' !in NatStr(o[i]) && Canonical(NatStr(o[i])) && DecValue(NatStr(o[i])) == o[i]
    {
      NatStrCanonical(o[i]);
      assert !IsDigit('.');
    }
    SplitJoin(OctetNumerals(o), '.');
  }

  /** `IPv6CHNToDDN`: the sixteen octets of a literal as decimal numerals
      joined by dots, or the exception of `IPv6ToFull`. */
  function IPv6CHNToDDN(ip: string): (r: Result<string>)
    ensures r.Ok? <==> IPv6Check(ip)
    ensures r.Err? ==> r.error == FormatError
    ensures r.Ok? ==> r.value == Join(OctetNumerals(Octets(Address(ip))), ".")
  {
    match IPv6CNHToHEX(ip)
    case Ok(hex) =>
      var ps := Pairs(hex);
      DottedForm(Address(ip));
      Ok(Join(seq(|ps|, i requires 0 <= i < |ps| => NatStr(HexDec(ps[i]))), "."))
    case Err(e) => Err(e)
  }

  lemma DottedForm(a: seq<nat>)
    requires IsAddress(a)
    ensures var ps := Pairs(Flatten(OctetDigits(a)));
      seq(|ps|, i requires 0 <= i < |ps| => NatStr(HexDec(ps[i]))) == OctetNumerals(Octets(a))
  {
    HexForm(a);
    Pow16Values();
    forall i | 0 <= i < 16
      ensures HexDec(OctetDigits(a)[i]) == Octets(a)[i]
    {
      HexValueFixed(Octets(a)[i], 2);
      HexDecHex(OctetDigits(a)[i]);
    }
  }

  /** The dotted form has sixteen fields, each a canonical numeral of at most 255. */
  lemma DottedShape(ip: string)
    requires IPv6Check(ip)
    ensures var p := Split(IPv6CHNToDDN(ip).value, '.');
      |p| == 16 && forall i :: 0 <= i < 16 ==> Canonical(p[i]) && DecValue(p[i]) <= 255
  {
    OctetNumeralsFacts(Octets(Address(ip)));
  }

  /** `sprintf('%02s', dechex(v))`. */
  function HexPair(v: nat): string
  {
    PadLeft(LowerHexStr(v), 2, '0')
  }

  /** `PHP_INT_MAX` of a 64-bit build. */
  const PhpIntMax: nat := 0x7FFF_FFFF_FFFF_FFFF

  /** A field `dechex` accepts here: a non-empty decimal numeral whose value
      fits a PHP integer (a larger one is a float string, which `dechex`
      refuses with a `TypeError`). */
  predicate IntNumeral(s: string)
  {
    s != [] && AllDigits(s) && DecValue(s) <= PhpIntMax
  }

  predicate AllNumerals(p: seq<string>)
  {
    forall i :: 0 <= i < |p| ==> IntNumeral(p[i])
  }

  /** Sixteen strings glued two by two, as `$IPArr[$Key++].$IPArr[$Key++]`. */
  function Paired(h: seq<string>): (g: seq<string>)
    requires |h| == 16
    ensures |g| == 8
  {
    seq(8, i requires 0 <= i < 8 => h[2 * i] + h[2 * i + 1])
  }

  /** The eight groups `IPv6DDNToCHN` builds from sixteen numerals. */
  function DottedGroups(p: seq<string>): (g: seq<string>)
    requires |p| == 16 && AllNumerals(p)
    ensures |g| == 8
  {
    Paired(HexFields(p))
  }

  /** The `array_map` of `sprintf('%02s', dechex(..))` over the fields. */
  function HexFields(p: seq<string>): (h: seq<string>)
    requires AllNumerals(p)
    ensures |h| == |p| && forall i :: 0 <= i < |p| ==> h[i] == HexPair(DecValue(p[i]))
  {
    seq(|p|, i requires 0 <= i < |p| => HexPair(DecValue(p[i])))
  }

  /** What `IPv6DDNToCHN` returns: the exception when there are not
      sixteen fields, `dechex`'s `TypeError` for a field that is no numeral
      fitting a PHP integer,
      otherwise the fields in pairs as colon-separated upper-case hex. */
  function FromDotted(ddn: string): (r: Result<string>)
    ensures r.Ok? <==> |Split(ddn, '.')| == 16 && AllNumerals(Split(ddn, '.'))
    ensures r.Err? && |Split(ddn, '.')| != 16 ==> r.error == FormatError
  {
    var p := Split(ddn, '.');
    if |p| != 16 then Err(FormatError)
    else if !AllNumerals(p) then Err(TypeError)
    else Ok(RTrim(Upper(Terminated(DottedGroups(p), ':')), ':'))
  }

  /** Group `i` as `IPv6DDNToCHN` builds it from octet numerals. */
  lemma DottedGroupAt(o: seq<nat>, i: nat)
    requires IsOctets(o) && i < 8
    ensures var g := DottedGroups(OctetNumerals(o))[i];
      g != [] && ':' !in g && Upper(g) == FullGroups(GroupsOf(o))[i]
  {
    DottedGroupPairs(o, i);
    HexPairGroup(o[2 * i], o[2 * i + 1]);
  }

  /** Group `i` is the hex pairs of octets `2i` and `2i + 1`. */
  lemma DottedGroupPairs(o: seq<nat>, i: nat)
    requires IsOctets(o) && i < 8
    ensures DottedGroups(OctetNumerals(o))[i] == HexPair(o[2 * i]) + HexPair(o[2 * i + 1])
  {
    NatStrCanonical(o[2 * i]);
    NatStrCanonical(o[2 * i + 1]);
  }

  /** Two `sprintf('%02s', dechex(..))` pairs upper-cased make the group of the two octets. */
  lemma HexPairGroup(x: nat, y: nat)
    requires x < 256 && y < 256
    ensures var g := HexPair(x) + HexPair(y);
      g != [] && ':' !in g && Upper(g) == FixedHex(x * 256 + y, 4)
  {
    var g := HexPair(x) + HexPair(y);
    LowerHexPadded(x);
    LowerHexPadded(y);
    UpperAppend(HexPair(x), HexPair(y));
    DivModOctet(x, y);
    GroupDigits(x * 256 + y);
    FixedHexUpper(x * 256 + y, 4);
    assert !IsHexDigit(':');
    UpperNoColon(g);
  }

  lemma UpperNoColon(g: string)
    requires ':' !in Upper(g)
    ensures ':' !in g
  {
    forall j | 0 <= j < |g| ensures g[j] != ':' {
      assert Upper(g)[j] == UpperChar(g[j]);
    }
  }

  /** Sixteen octet numerals come back as the full form of the address they make. */
  lemma FromDottedOctets(o: seq<nat>)
    requires IsOctets(o)
    ensures FromDotted(Join(OctetNumerals(o), ".")) == Ok(FullText(GroupsOf(o)))
  {
    OctetNumeralsFacts(o);
    var g := DottedGroups(OctetNumerals(o));
    var up := seq(|g|, i requires 0 <= i < |g| => Upper(g[i]));
    forall i | 0 <= i < 8
      ensures g[i] != [] && ':' !in g[i] && up[i] == FullGroups(GroupsOf(o))[i]
    {
      DottedGroupAt(o, i);
    }
    assert up == FullGroups(GroupsOf(o));
    UpperTerminated(g);
    RTrimTerminated(up, ':');
  }

  lemma UpperTerminated(g: seq<string>)
    requires |g| > 0
    ensures Upper(Terminated(g, ':')) == Terminated(seq(|g|, i requires 0 <= i < |g| => Upper(g[i])), ':')
  {
    var up := seq(|g|, i requires 0 <= i < |g| => Upper(g[i]));
    TerminatedJoin(g, ':');
    TerminatedJoin(up, ':');
    UpperJoin(g, ':');
    UpperAppend(Join(g, ":"), ":");
  }

  /** Dotted decimal and back is the full form: `IPv6DDNToCHN(IPv6CHNToDDN(x)) == IPv6ToFull(x)`. */
  lemma DottedRoundTrip(ip: string)
    requires IPv6Check(ip)
    ensures FromDotted(IPv6CHNToDDN(ip).value) == Full(ip)
  {
    FromDottedOctets(Octets(Address(ip)));
    GroupsOfOctets(Address(ip));
  }

  /** One more list entry written, followed by its colon. */
  lemma TerminatedPrefix(g: seq<string>, n: nat)
    requires n < |g|
    ensures Terminated(g[..n + 1], ':') == Terminated(g[..n], ':') + g[n] + ":"
  {
    assert g[..n + 1] == g[..n] + [g[n]];
    TerminatedSnoc(g[..n], g[n], ':');
  }

  /** `IPv6DDNToCHN`: splits at the dots, turns every field into two hex
      digits with `dechex`, and emits them two by two, each pair followed by
      a colon; then upper-cases and trims the final colon. */
  method IPv6DDNToCHN(ddn: string) returns (r: Result<string>)
    ensures r == FromDotted(ddn)
  {
    var ipStr := "";
    var ipArr := Split(ddn, '.');
    if |ipArr| != 16 {
      return Err(FormatError);
    }
    if !AllNumerals(ipArr) {
      return Err(TypeError);
    }
    var hexArr := HexFields(ipArr);
    ghost var groups := Paired(hexArr);
    var key := 0;
    ghost var n := 0;
    while key < 16
      invariant 0 <= n <= 8 && key == 2 * n
      invariant ipStr == Terminated(groups[..n], ':')
    {
      var first := hexArr[key];
      key := key + 1;
      var second := hexArr[key];
      key := key + 1;
      assert first + second == groups[n];
      TerminatedPrefix(groups, n);
      ipStr := ipStr + (first + second) + ":";
      n := n + 1;
    }
    assert groups[..8] == groups;
    r := Ok(RTrim(Upper(ipStr), ':'));
  }
}
