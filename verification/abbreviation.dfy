/** The abbreviated IPv6 text `IPv6ToAbbreviation` produces: every group
    without leading zeros, upper-case, and the earliest of the longest
    runs of zero groups (a single zero group included) written as `::`. */
module IPv6Abbrev {
  import opened Wrappers
  import opened Strings
  import opened Numerals
  import opened ZeroRuns
  import opened IPv6Text

  /** The closure `array_map` applies to every full group: "0" for a zero
      group, the group without its leading zeros otherwise. */
  function Shorten(g: string): string
  {
    if HexDec(g) == 0 then "0" else LTrim(g, '0')
  }

  /** The groups in their shortest upper-case hexadecimal form. */
  function MinGroups(a: seq<nat>): (g: seq<string>)
    requires IsAddress(a)
    ensures |g| == 8 && forall i :: 0 <= i < 8 ==> g[i] == HexStr(a[i])
  {
    seq(8, i requires 0 <= i < 8 => HexStr(a[i]))
  }

  /** The abbreviation of an address: its groups joined by colons, the
      reference zero run (the earliest longest) replaced by `::`. */
  function AbbrevText(a: seq<nat>): string
    requires IsAddress(a)
  {
    var g := MinGroups(a);
    LongestZeroRunSpec(a);
    match LongestZeroRun(a)
    case None => Join(g, ":")
    case Some(r) => Join(g[..r.start], ":") + "::" + Join(g[r.start + r.len..], ":")
  }

  /** What `IPv6ToAbbreviation` returns. */
  function Abbreviation(ip: string): Result<string>
  {
    if IPv6Check(ip) then Ok(AbbrevText(Address(ip))) else Err(FormatError)
  }

  // -------------------------------------------------- the final loop's text

  /** The string `$IPStr` the last loop has built after the keys below `n`:
      an absent key adds nothing; the `:` marker first trims the trailing
      colons; every entry is followed by a colon except a group at key 7. */
  function Render(m: map<int, string>, n: nat): string
  {
    if n == 0 then ""
    else
      var pre := Render(m, n - 1);
      var k := n - 1;
      if k !in m then pre
      else
        var x := m[k];
        (if x == ":" then RTrim(pre, ':') else pre) + x + (if k == 7 && x != ":" then "" else ":")
  }

  /** Groups the abbreviation writes: non-empty, colon-free. */
  predicate Written(g: seq<string>)
  {
    forall i :: 0 <= i < |g| ==> g[i] != [] && ':' !in g[i]
  }

  /** A written group is never the `:` marker. */
  lemma WrittenNotMarker(g: seq<string>)
    requires Written(g)
    ensures forall i :: 0 <= i < |g| ==> g[i] != ":"
  {
    forall i | 0 <= i < |g|
      ensures g[i] != ":"
    {
      MarkerHasColon(g[i]);
    }
  }

  lemma MarkerHasColon(x: string)
    ensures x == ":" ==> ':' in x
  {
  }

  /** A group before the last is written followed by a colon. */
  lemma RenderStep(m: map<int, string>, k: nat)
    requires k < 7 && k in m && m[k] != ":"
    ensures Render(m, k + 1) == Render(m, k) + m[k] + ":"
  {
  }

  lemma {:induction false} RenderSkip(m: map<int, string>, lo: nat, n: nat)
    requires lo <= n
    requires forall k :: lo <= k < n ==> k !in m
    ensures Render(m, n) == Render(m, lo)
  {
    if lo < n {
      RenderSkip(m, lo, n - 1);
    }
  }

  /** Groups `lo` to `n - 1`, none the last, are written each followed by a colon. */
  lemma {:induction false} RenderSuffix(m: map<int, string>, g: seq<string>, lo: nat, n: nat)
    requires lo <= n <= 7 && n <= |g| && Written(g)
    requires forall k :: lo <= k < n ==> k in m && m[k] == g[k]
    ensures Render(m, n) == Render(m, lo) + Terminated(g[lo..n], ':')
  {
    if lo < n {
      RenderSuffix(m, g, lo, n - 1);
      WrittenNotMarker(g);
      RenderStep(m, n - 1);
      var t := Terminated(g[lo..n - 1], ':');
      assert g[lo..n] == g[lo..n - 1] + [g[n - 1]];
      TerminatedSnoc(g[lo..n - 1], g[n - 1], ':');
      AppendAssoc(Render(m, lo), t, g[n - 1]);
      AppendAssoc(Render(m, lo), t + g[n - 1], ":");
    } else {
      assert Render(m, lo) + "" == Render(m, lo);
    }
  }

  /** Groups `0` to `n - 1`, none the last, are written each followed by a colon. */
  lemma {:induction false} RenderPrefix(m: map<int, string>, g: seq<string>, n: nat)
    requires n <= 7 && n <= |g| && Written(g)
    requires forall k :: 0 <= k < n ==> k in m && m[k] == g[k]
    ensures Render(m, n) == Terminated(g[..n], ':')
  {
    if n > 0 {
      RenderPrefix(m, g, n - 1);
      WrittenNotMarker(g);
      RenderStep(m, n - 1);
      assert g[..n] == g[..n - 1] + [g[n - 1]];
      TerminatedSnoc(g[..n - 1], g[n - 1], ':');
    }
  }

  /** A trailing `part:` list followed by the last part is the `implode`. */
  lemma TerminatedThenLast(g: seq<string>, lo: nat)
    requires lo <= 7 && |g| == 8
    ensures Terminated(g[lo..7], ':') + g[7] == Join(g[lo..], ":")
  {
    var t := g[lo..7];
    assert g[lo..] == t + [g[7]];
    TerminatedJoin(t, ':');
    if |t| == 0 {
      assert Join(g[lo..], ":") == g[7];
    } else {
      assert (t + [g[7]])[..|t|] == t;
    }
  }

  /** The last loop over the untouched groups writes their `implode`. */
  lemma RenderPlain(m: map<int, string>, g: seq<string>)
    requires |g| == 8 && Written(g)
    requires forall k :: 0 <= k < 8 ==> k in m && m[k] == g[k]
    ensures Render(m, 8) == Join(g, ":")
  {
    RenderPrefix(m, g, 7);
    MarkerHasColon(g[7]);
    TerminatedThenLast(g, 0);
    assert g[0..] == g;
    assert g[..7] == g[0..7];
  }

  /** The last loop over the groups with the run `[s, e]` compressed: keys
      `s` to `e - 1` unset and key `e` holding the `:` marker. */
  lemma RenderCompressed(m: map<int, string>, g: seq<string>, s: nat, e: nat)
    requires |g| == 8 && Written(g) && s <= e < 8
    requires forall k :: 0 <= k < 8 ==> (k in m <==> !(s <= k < e))
    requires forall k :: 0 <= k < 8 && k in m ==> m[k] == if k == e then ":" else g[k]
    ensures Render(m, 8) == Join(g[..s], ":") + "::" + Join(g[e + 1..], ":")
  {
    RenderPrefix(m, g, s);
    RenderSkip(m, s, e);
    RTrimTerminated(g[..s], ':');
    var head := Join(g[..s], ":");
    assert Render(m, e + 1) == head + ":" + ":";
    assert head + ":" + ":" == head + "::";
    RenderAfterMarker(m, g, e, head + "::");
  }

  /** After the `:` marker at key `e` the remaining groups are written as
      their `implode`. */
  lemma RenderAfterMarker(m: map<int, string>, g: seq<string>, e: nat, pre: string)
    requires |g| == 8 && Written(g) && e < 8
    requires Render(m, e + 1) == pre
    requires forall k :: e < k < 8 ==> k in m && m[k] == g[k]
    ensures Render(m, 8) == pre + Join(g[e + 1..], ":")
  {
    if e < 7 {
      RenderSuffix(m, g, e + 1, 7);
      MarkerHasColon(g[7]);
      TerminatedThenLast(g, e + 1);
      AppendAssoc(pre, Terminated(g[e + 1..7], ':'), g[7]);
    } else {
      assert g[e + 1..] == [];
      assert pre + "" == pre;
    }
  }

  /** A PHP list as the array it is: keys `0` to `|g| - 1`. */
  function Indexed(g: seq<string>): (m: map<int, string>)
    ensures forall k :: k in m <==> 0 <= k < |g|
  {
    map k | 0 <= k < |g| :: g[k]
  }

  /** The array after the run `[s, e]` is compressed: key `e` holds the `:`
      marker and keys `s` to `e - 1` are unset. */
  function Compressed(m: map<int, string>, s: int, e: int): map<int, string>
  {
    map k | k in m && !(s <= k < e) :: if k == e then ":" else m[k]
  }

  /** Writing the groups with the reference run compressed gives the abbreviation. */
  lemma AbbrevCompressed(a: seq<nat>)
    requires IsAddress(a) && LongestZeroRun(a).Some?
    ensures var r := LongestZeroRun(a).value;
      Render(Compressed(Indexed(MinGroups(a)), r.start, r.start + r.len - 1), 8) == AbbrevText(a)
  {
    LongestZeroRunSpec(a);
    MinGroupsWritten(a);
    var r := LongestZeroRun(a).value;
    var m := Compressed(Indexed(MinGroups(a)), r.start, r.start + r.len - 1);
    RenderCompressed(m, MinGroups(a), r.start, r.start + r.len - 1);
  }

  /** Writing every group gives the abbreviation of an address without zero groups. */
  lemma AbbrevPlain(a: seq<nat>)
    requires IsAddress(a) && LongestZeroRun(a).None?
    ensures Render(Indexed(MinGroups(a)), 8) == AbbrevText(a)
  {
    MinGroupsWritten(a);
    RenderPlain(Indexed(MinGroups(a)), MinGroups(a));
  }

  // ------------------------------------------------------------- the method

  /** A non-empty table means the address has a zero group, and the file
      the selection loop keeps is exactly the reference zero run. */
  lemma SelectedRun(a: seq<nat>, z: map<int, seq<nat>>)
    requires IsAddress(a) && z == ZeroTable(a, 8) && z != map[]
    ensures LongestZeroRun(a).Some?
    ensures var r := LongestZeroRun(a).value;
      && 1 <= r.len && r.start + r.len <= 8
      && BestUpTo(a, NonZeroCount(a, 8) + 1) == Range(r.start, r.start + r.len)
  {
    NoZeroEmptyTable(a, 8);
    var j :| 0 <= j < 8 && a[j] == 0;
    LongestZeroRunSpec(a);
    BestWithZero(a);
  }

  /** Without a zero group the table stays empty. */
  lemma {:induction false} NoZeroEmptyTable(a: seq<nat>, n: nat)
    requires n <= |a|
    ensures (forall j :: 0 <= j < n ==> a[j] != 0) ==> ZeroTable(a, n) == map[]
  {
    if n > 0 {
      NoZeroEmptyTable(a, n - 1);
    }
  }

  /** `z` is the table `$KeyArrZero` after the scan has visited the indices
      below `n`: one entry per id with a non-empty file, holding that file. */
  ghost predicate Filed(a: seq<nat>, n: nat, z: map<int, seq<nat>>)
    requires n <= |a|
  {
    && (forall id :: id in z <==> Members(a, n, id) != [])
    && (forall id :: id in z ==> z[id] == Members(a, n, id))
  }

  /** The table `$KeyArrZero` after the scan has visited the indices below
      `n`: a zero group is appended to the file of the current id (the
      number of non-zero groups before it); any other group changes nothing. */
  function ZeroTable(a: seq<nat>, n: nat): map<int, seq<nat>>
    requires n <= |a|
  {
    if n == 0 then map[]
    else
      var z := ZeroTable(a, n - 1);
      var g := NonZeroCount(a, n - 1);
      if a[n - 1] == 0 then z[g := (if g in z then z[g] else []) + [n - 1]] else z
  }

  /** The table files every zero group, and only those, under its id, in
      increasing order. */
  lemma {:induction false} ZeroTableSpec(a: seq<nat>, n: nat)
    requires n <= |a|
    ensures Filed(a, n, ZeroTable(a, n))
  {
    if n > 0 {
      ZeroTableSpec(a, n - 1);
      var z, z' := ZeroTable(a, n - 1), ZeroTable(a, n);
      forall id
        ensures (id in z' <==> Members(a, n, id) != []) && (id in z' ==> z'[id] == Members(a, n, id))
      {
        if a[n - 1] == 0 && id == NonZeroCount(a, n - 1) {
          assert Members(a, n, id) == Members(a, n - 1, id) + [n - 1];
        } else {
          assert Members(a, n, id) == Members(a, n - 1, id) + [];
        }
      }
    }
  }

  lemma ShortenGroup(v: nat)
    requires v < 65536
    ensures Shorten(FixedHex(v, 4)) == HexStr(v)
  {
    Pow16Values();
    HexValueFixed(v, 4);
    HexDecHex(FixedHex(v, 4));
    if v > 0 {
      FixedHexPadded(v, 4);
      HexStrFacts(v);
      LTrimZeros(4 - |HexStr(v)|, HexStr(v), '0');
    }
  }

  lemma MinGroupsWritten(a: seq<nat>)
    requires IsAddress(a)
    ensures Written(MinGroups(a))
    ensures forall i :: 0 <= i < 8 ==> (MinGroups(a)[i] == "0" <==> a[i] == 0)
  {
    forall i | 0 <= i < 8
      ensures HexStr(a[i]) != [] && ':' !in HexStr(a[i]) && (HexStr(a[i]) == "0" <==> a[i] == 0)
    {
      HexStrFacts(a[i]);
    }
  }

  /** Shortening the groups of the full form gives the shortest groups. */
  lemma ShortenFull(a: seq<nat>)
    requires IsAddress(a)
    ensures var parts := Split(FullText(a), ':');
      |parts| == 8 && forall i :: 0 <= i < 8 ==> Shorten(parts[i]) == MinGroups(a)[i]
  {
    FullTextShape(a);
    forall i | 0 <= i < 8
      ensures Shorten(FullGroups(a)[i]) == HexStr(a[i])
    {
      ShortenGroup(a[i]);
    }
  }

  /** The `foreach` that files every zero group under the number of
      non-zero groups before it (`$KeyGroupID`); `$KeyLastZreo` is always
      the previous index, so every non-zero group opens a new id. */
  method ScanZeros(mapped: seq<string>, ghost a: seq<nat>)
    returns (keyArrZero: map<int, seq<nat>>, keyGroupId: nat)
    requires |mapped| == |a|
    requires forall i :: 0 <= i < |a| ==> (mapped[i] == "0" <==> a[i] == 0)
    ensures keyArrZero == ZeroTable(a, |a|) && keyGroupId == NonZeroCount(a, |a|)
  {
    keyArrZero := map[];
    keyGroupId := 0;
    var keyLastZero := -1;
    for key := 0 to |mapped|
      invariant keyLastZero == key - 1
      invariant keyGroupId == NonZeroCount(a, key)
      invariant keyArrZero == ZeroTable(a, key)
    {
      if mapped[key] == "0" {
        keyLastZero := key;
        var file := if keyGroupId in keyArrZero then keyArrZero[keyGroupId] else [];
        keyArrZero := keyArrZero[keyGroupId := file + [key]];
      } else if key - keyLastZero == 1 {
        keyLastZero := key;
        keyGroupId := keyGroupId + 1;
      }
    }
  }

  /** The `foreach` that keeps the first of the longest files; the files
      were created in increasing id order, all ids at most `keyGroupId`,
      so visiting the ids in order visits them as PHP does. */
  method SelectLongest(keyArrZero: map<int, seq<nat>>, keyGroupId: nat, ghost a: seq<nat>)
    returns (keyArrZeroMax: seq<nat>)
    requires keyArrZero == ZeroTable(a, |a|) && keyGroupId == NonZeroCount(a, |a|)
    ensures keyArrZeroMax == BestUpTo(a, NonZeroCount(a, |a|) + 1)
  {
    ZeroTableSpec(a, |a|);
    keyArrZeroMax := [];
    for id := 0 to keyGroupId + 1
      invariant keyArrZeroMax == BestUpTo(a, id)
    {
      SelectStep(a, keyArrZero, id);
      if id in keyArrZero && |keyArrZero[id]| > |keyArrZeroMax| {
        keyArrZeroMax := keyArrZero[id];
      }
    }
  }

  /** One step of the selection, read off the table. */
  lemma SelectStep(a: seq<nat>, z: map<int, seq<nat>>, id: nat)
    requires Filed(a, |a|, z)
    ensures BestUpTo(a, id + 1)
      == if id in z && |z[id]| > |BestUpTo(a, id)| then z[id] else BestUpTo(a, id)
  {
    assert id !in z ==> Members(a, |a|, id) == [];
  }

  /** Marks the last index of the kept file `[s, s + len)` with `:`
      (`array_pop`) and unsets the others. */
  method Compress(ipArr: map<int, string>, keyArrZeroMax: seq<nat>, ghost s: nat, ghost len: nat)
    returns (out: map<int, string>)
    requires 1 <= len && keyArrZeroMax == Range(s, s + len) && s + len - 1 in ipArr
    ensures out == Compressed(ipArr, s, s + len - 1)
  {
    var rest := keyArrZeroMax[..|keyArrZeroMax| - 1];
    var last := keyArrZeroMax[|keyArrZeroMax| - 1];
    out := ipArr[last := ":"];
    for i := 0 to |rest|
      invariant out == map k | k in ipArr && !(s <= k < s + i) :: if k == last then ":" else ipArr[k]
    {
      out := out - {rest[i]};
    }
  }

  /** The last `foreach`, over the keys in order. */
  method WriteGroups(ipArr: map<int, string>) returns (ipStr: string)
    ensures ipStr == Render(ipArr, 8)
  {
    ipStr := "";
    for key := 0 to 8
      invariant ipStr == Render(ipArr, key)
    {
      if key in ipArr {
        var x := ipArr[key];
        if x == ":" {
          ipStr := RTrim(ipStr, ':');
        }
        ipStr := ipStr + x + (if key == 7 && x != ":" then "" else ":");
      }
    }
  }

  /** `IPv6ToAbbreviation`: expands the literal with `IPv6ToFull`, shortens
      every group, then compresses and writes them. */
  method IPv6ToAbbreviation(ip: string) returns (r: Result<string>)
    ensures r == Abbreviation(ip)
  {
    var full := IPv6ToFull(ip);
    if full.Err? {
      return Err(full.error);
    }
    ghost var a := Address(ip);
    var parts := Split(full.value, ':');
    ShortenFull(a);
    var mapped := seq(|parts|, i requires 0 <= i < |parts| => Shorten(parts[i]));
    assert mapped == MinGroups(a);
    var ipStr := AbbreviateGroups(mapped, a);
    r := Ok(ipStr);
  }

  /** The rest of `IPv6ToAbbreviation` once the groups are shortened: files
      the zero groups by run, keeps the first of the longest files,
      compresses it and writes the remaining entries. */
  method AbbreviateGroups(mapped: seq<string>, ghost a: seq<nat>) returns (ipStr: string)
    requires IsAddress(a) && mapped == MinGroups(a)
    ensures ipStr == AbbrevText(a)
  {
    MinGroupsWritten(a);
    var ipArr := Indexed(mapped);
    var keyArrZero, keyGroupId := ScanZeros(mapped, a);
    if keyArrZero != map[] {
      var keyArrZeroMax := SelectLongest(keyArrZero, keyGroupId, a);
      SelectedRun(a, keyArrZero);
      ghost var run := LongestZeroRun(a).value;
      ipArr := Compress(ipArr, keyArrZeroMax, run.start, run.len);
      AbbrevCompressed(a);
    } else {
      NoZeroGroup(a, keyArrZero);
      AbbrevPlain(a);
    }
    ipStr := WriteGroups(ipArr);
  }

  /** An empty table means the address has no zero group. */
  lemma NoZeroGroup(a: seq<nat>, z: map<int, seq<nat>>)
    requires z == ZeroTable(a, |a|) && z == map[]
    ensures LongestZeroRun(a).None?
  {
    ZeroTableSpec(a, |a|);
    LongestZeroRunSpec(a);
    forall j | 0 <= j < |a|
      ensures a[j] != 0
    {
      if a[j] == 0 {
        MembersExist(a, j);
        assert NonZeroCount(a, j) in z;
      }
    }
  }

  // ------------------------------------------------------- the round trip

  /** The shortest groups are literal groups denoting the address's values. */
  lemma MinGroupsParse(a: seq<nat>)
    requires IsAddress(a)
    ensures forall i :: 0 <= i < 8 ==> HexGroup(MinGroups(a)[i]) && HexDec(MinGroups(a)[i]) == a[i]
  {
    Pow16Values();
    forall i | 0 <= i < 8
      ensures HexGroup(HexStr(a[i])) && HexDec(HexStr(a[i])) == a[i]
    {
      HexStrFacts(a[i]);
      FixedHexPadded(a[i], 4);
      HexDecHex(HexStr(a[i]));
    }
  }

  /** The block of empty fields from `k` to `m` is the one `FirstEmpty` and `LastEmpty` find. */
  lemma EmptyBlock(f: seq<string>, k: nat, m: nat)
    requires k <= m < |f|
    requires forall i :: k <= i <= m ==> f[i] == []
    requires forall i :: 0 <= i < |f| && !(k <= i <= m) ==> f[i] != []
    ensures FirstEmpty(f) == k && LastEmpty(f) == m
  {
    assert f[k] == [] && f[m] == [];
  }

  /** The gap of a literal: the groups its `::` stands for. */
  function Gap(f: seq<string>): Option<Run>
    requires ValidFields(f)
  {
    ValidFieldsShape(f);
    var k := FirstEmpty(f);
    if k == |f| then None else Some(Run(k, 8 - k - (|f| - 1 - LastEmpty(f))))
  }

  /** The address a literal with a gap denotes. */
  lemma AddressOfGap(f: seq<string>, k: nat, m: nat)
    requires ValidFields(f) && FirstEmpty(f) == k < |f| && LastEmpty(f) == m
    ensures m + 1 <= |f| && 8 - k - (|f| - 1 - m) >= 0
    ensures AddressOf(f) == GroupValues(f[..k]) + Zeros(8 - k - (|f| - 1 - m)) + GroupValues(f[m + 1..])
  {
    ValidFieldsShape(f);
  }

  /** The values of parsed groups. */
  predicate Denotes(g: seq<string>, a: seq<nat>)
  {
    |g| == |a| && forall i :: 0 <= i < |g| ==> HexGroup(g[i]) && HexDec(g[i]) == a[i]
  }

  lemma DenotesSlice(g: seq<string>, a: seq<nat>, lo: nat, hi: nat)
    requires Denotes(g, a) && lo <= hi <= |g|
    ensures GroupValues(g[lo..hi]) == a[lo..hi]
  {
  }

  /** An address split around a run of zeros. */
  lemma AroundRun(a: seq<nat>, s: nat, len: nat)
    requires s + len <= |a| && forall i :: s <= i < s + len ==> a[i] == 0
    ensures a == a[..s] + Zeros(len) + a[s + len..]
  {
    assert a[s..s + len] == Zeros(len);
    assert a == a[..s] + a[s..s + len] + a[s + len..];
  }

  /** `h::t` with groups on both sides. */
  lemma GapInsideValid(f: seq<string>, g: seq<string>, a: seq<nat>, s: nat, len: nat)
    requires Denotes(g, a) && |a| == 8 && 0 < s && 1 <= len && s + len < 8
    requires f == g[..s] + [""] + g[s + len..]
    ensures ValidFields(f) && FirstEmpty(f) == s && LastEmpty(f) == s
    ensures Gap(f) == Some(Run(s, len))
  {
    assert |f| == 9 - len;
    assert forall i :: 0 <= i < s ==> f[i] == g[i];
    assert forall i :: s < i < |f| ==> f[i] == g[i + len - 1];
    EmptyBlock(f, s, s);
  }

  lemma GapInside(f: seq<string>, g: seq<string>, a: seq<nat>, s: nat, len: nat)
    requires Denotes(g, a) && |a| == 8 && 0 < s && 1 <= len && s + len < 8
    requires forall i :: s <= i < s + len ==> a[i] == 0
    requires f == g[..s] + [""] + g[s + len..]
    ensures ValidFields(f) && AddressOf(f) == a
    ensures Gap(f) == Some(Run(s, len))
  {
    GapInsideValid(f, g, a, s, len);
    AddressOfGap(f, s, s);
    InsideValues(f, g, a, s, len);
  }

  lemma InsideValues(f: seq<string>, g: seq<string>, a: seq<nat>, s: nat, len: nat)
    requires Denotes(g, a) && |a| == 8 && 0 < s && 1 <= len && s + len < 8
    requires forall i :: s <= i < s + len ==> a[i] == 0
    requires f == g[..s] + [""] + g[s + len..]
    ensures |f| == 9 - len && GroupValues(f[..s]) + Zeros(len) + GroupValues(f[s + 1..]) == a
  {
    assert f[..s] == g[..s] && f[s + 1..] == g[s + len..];
    DenotesSlice(g, a, 0, s);
    DenotesSlice(g, a, s + len, 8);
    AroundRun(a, s, len);
  }

  /** `::t`. */
  lemma GapLeadingValid(f: seq<string>, g: seq<string>, a: seq<nat>, len: nat)
    requires Denotes(g, a) && |a| == 8 && 1 <= len < 8
    requires f == [""] + [""] + g[len..]
    ensures ValidFields(f) && FirstEmpty(f) == 0 && LastEmpty(f) == 1
    ensures Gap(f) == Some(Run(0, len))
  {
    assert |f| == 10 - len;
    assert forall i :: 1 < i < |f| ==> f[i] == g[i + len - 2];
    EmptyBlock(f, 0, 1);
  }

  lemma GapLeading(f: seq<string>, g: seq<string>, a: seq<nat>, len: nat)
    requires Denotes(g, a) && |a| == 8 && 1 <= len < 8
    requires forall i :: 0 <= i < len ==> a[i] == 0
    requires f == [""] + [""] + g[len..]
    ensures ValidFields(f) && AddressOf(f) == a
    ensures Gap(f) == Some(Run(0, len))
  {
    GapLeadingValid(f, g, a, len);
    AddressOfGap(f, 0, 1);
    assert f[..0] == [] && f[2..] == g[len..];
    DenotesSlice(g, a, len, 8);
    AroundRun(a, 0, len);
  }

  /** `h::`. */
  lemma GapTrailing(f: seq<string>, g: seq<string>, a: seq<nat>, s: nat)
    requires Denotes(g, a) && |a| == 8 && 0 < s < 8
    requires forall i :: s <= i < 8 ==> a[i] == 0
    requires f == g[..s] + [""] + [""]
    ensures ValidFields(f) && AddressOf(f) == a
    ensures Gap(f) == Some(Run(s, 8 - s))
  {
    EmptyBlock(f, s, s + 1);
    AddressOfGap(f, s, s + 1);
    assert f[..s] == g[..s] && f[s + 2..] == [];
    DenotesSlice(g, a, 0, s);
    AroundRun(a, s, 8 - s);
  }

  /** `::` alone. */
  lemma GapAll(f: seq<string>, a: seq<nat>)
    requires |a| == 8 && forall i :: 0 <= i < 8 ==> a[i] == 0
    requires f == [""] + [""] + [""]
    ensures ValidFields(f) && AddressOf(f) == a
    ensures Gap(f) == Some(Run(0, 8))
  {
    EmptyBlock(f, 0, 2);
    AddressOfGap(f, 0, 2);
    assert f[..0] == [] && f[3..] == [];
    AroundRun(a, 0, 8);
  }

  /** `explode` of a text holding `::` has one empty field between the two sides. */
  lemma SplitDoubleColon(x: string, y: string)
    ensures Split(x + "::" + y, ':') == Split(x, ':') + [""] + Split(y, ':')
  {
    var w := [':'] + y;
    assert x + "::" + y == x + [':'] + w;
    SplitAround(x, w, ':');
    assert w == [] + [':'] + y;
    SplitAround([], y, ':');
  }

  /** `explode` of an `implode`, an empty list giving one empty field. */
  lemma SplitJoinSide(h: seq<string>)
    requires forall i :: 0 <= i < |h| ==> ':' !in h[i]
    ensures Split(Join(h, ":"), ':') == if h == [] then [""] else h
  {
    if h != [] { SplitJoin(h, ':'); }
  }

  /** `explode(':', h . '::' . t)`. */
  lemma SplitGap(h: seq<string>, t: seq<string>)
    requires forall i :: 0 <= i < |h| ==> ':' !in h[i]
    requires forall i :: 0 <= i < |t| ==> ':' !in t[i]
    ensures Split(Join(h, ":") + "::" + Join(t, ":"), ':')
      == (if h == [] then [""] else h) + [""] + (if t == [] then [""] else t)
  {
    SplitDoubleColon(Join(h, ":"), Join(t, ":"));
    SplitJoinSide(h);
    SplitJoinSide(t);
  }

  lemma PlainRoundTrip(a: seq<nat>)
    requires IsAddress(a) && LongestZeroRun(a).None?
    ensures IPv6Check(AbbrevText(a)) && Address(AbbrevText(a)) == a
    ensures IPv6Check(AbbrevText(a)) && Gap(Split(AbbrevText(a), ':')) == None
  {
    var g := MinGroups(a);
    MinGroupsParse(a);
    MinGroupsWritten(a);
    SplitJoin(g, ':');
    assert FirstEmpty(g) == 8;
    DenotesSlice(g, a, 0, 8);
    assert g[0..8] == g && a[0..8] == a;
  }

  /** The fields of an abbreviation with a gap. */
  lemma GapFields(a: seq<nat>)
    requires IsAddress(a) && LongestZeroRun(a).Some?
    ensures var r, g := LongestZeroRun(a).value, MinGroups(a);
      && 1 <= r.len && r.start + r.len <= 8
      && (forall i :: r.start <= i < r.start + r.len ==> a[i] == 0)
      && Split(AbbrevText(a), ':')
         == (if r.start == 0 then [""] else g[..r.start]) + [""]
            + (if r.start + r.len == 8 then [""] else g[r.start + r.len..])
  {
    var g := MinGroups(a);
    MinGroupsWritten(a);
    LongestZeroRunSpec(a);
    var r := LongestZeroRun(a).value;
    var h, t := g[..r.start], g[r.start + r.len..];
    assert AbbrevText(a) == Join(h, ":") + "::" + Join(t, ":");
    SplitGap(h, t);
  }

  lemma GapRoundTrip(a: seq<nat>)
    requires IsAddress(a) && LongestZeroRun(a).Some?
    ensures IPv6Check(AbbrevText(a)) && Address(AbbrevText(a)) == a
    ensures IPv6Check(AbbrevText(a)) && Gap(Split(AbbrevText(a), ':')) == LongestZeroRun(a)
  {
    var g := MinGroups(a);
    MinGroupsParse(a);
    GapFields(a);
    var r := LongestZeroRun(a).value;
    var f := Split(AbbrevText(a), ':');
    if r.start == 0 && r.len == 8 {
      GapAll(f, a);
    } else if r.start == 0 {
      GapLeading(f, g, a, r.len);
    } else if r.start + r.len == 8 {
      GapTrailing(f, g, a, r.start);
    } else {
      GapInside(f, g, a, r.start, r.len);
    }
  }

  /** The abbreviation is itself a literal, and it denotes the address. */
  lemma AbbrevRoundTrip(a: seq<nat>)
    requires IsAddress(a)
    ensures IPv6Check(AbbrevText(a)) && Address(AbbrevText(a)) == a
  {
    if LongestZeroRun(a).None? {
      PlainRoundTrip(a);
    } else {
      GapRoundTrip(a);
    }
  }

  /** The abbreviation writes `::` exactly when the address has a zero
      group, and then the `::` stands for the earliest of the longest runs
      of zero groups. */
  lemma AbbrevGap(a: seq<nat>)
    requires IsAddress(a)
    ensures IPv6Check(AbbrevText(a)) && var gap := Gap(Split(AbbrevText(a), ':'));
      && (gap.Some? <==> exists i :: 0 <= i < 8 && a[i] == 0)
      && (gap.Some? ==> IsChosenRun(a, gap.value))
  {
    AbbrevRoundTrip(a);
    LongestZeroRunSpec(a);
    if LongestZeroRun(a).None? {
      PlainRoundTrip(a);
    } else {
      GapRoundTrip(a);
    }
  }

  /** A lone zero group is still written as `::` (RFC 5952 section 4.2.2 would keep it as `0`). */
  lemma SingleZeroCompressed(a: seq<nat>, i: nat)
    requires IsAddress(a) && i < 8 && a[i] == 0
    requires forall j :: 0 <= j < 8 && j != i ==> a[j] != 0
    ensures AbbrevText(a) == Join(MinGroups(a)[..i], ":") + "::" + Join(MinGroups(a)[i + 1..], ":")
  {
    SingleZeroIsChosen(a, i);
  }

  /** Abbreviating is idempotent, and the abbreviation expands to the same full form. */
  lemma AbbreviationIdempotent(ip: string)
    requires Abbreviation(ip).Ok?
    ensures Abbreviation(Abbreviation(ip).value) == Abbreviation(ip)
    ensures Full(Abbreviation(ip).value) == Full(ip)
  {
    AbbrevRoundTrip(Address(ip));
  }
}
