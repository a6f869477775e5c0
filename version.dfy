/**
 * Module version checks done while a module is loaded: the per-symbol CRC
 * check against the module's __versions table, and the comparison of the
 * module's vermagic string with the kernel's.
 *
 * try_to_force_load and find_symbol are calls into the rest of the loader;
 * their results are parameters here.  C strings are modelled as the
 * sequence of their characters before the terminating NUL; reading the
 * terminator is allowed, reading past it is not.
 */
module ModVersion {

  import opened Common

  // ---------------------------------------------------------------------------
  // The __versions table (version.c:13-77)
  // ---------------------------------------------------------------------------

  /** sizeof(struct modversion_info) on a 64-bit build: an unsigned long and a 56-byte name. */
  const ModVersionInfoSize: nat := 64
  /** One record of a module's __versions section: the CRC it was built against and the symbol name. */
  datatype ModVersionInfo = ModVersionInfo(crc: nat, name: string)

  /** What check_version reads of an ELF section header: sh_size and the records at sh_addr. */
  datatype SectionHeader = SectionHeader(size: nat, records: seq<ModVersionInfo>)

  /** The parts of struct load_info that check_version uses. */
  datatype LoadInfo = LoadInfo(name: string, sechdrs: seq<SectionHeader>, versIndex: nat)

  /** Number of records check_version scans: sh_size divided by the record size. */
  function NumVersions(info: LoadInfo): (n: nat)
    requires info.versIndex < |info.sechdrs|
    ensures n * ModVersionInfoSize <= info.sechdrs[info.versIndex].size
                                    < (n + 1) * ModVersionInfoSize
  {
    info.sechdrs[info.versIndex].size / ModVersionInfoSize
  }

  /**
   * What the loader has established before check_version runs: a non-zero
   * version index names a section header, and that section holds at least
   * as many records as its size announces.
   */
  predicate VersionsReadable(info: LoadInfo)
  {
    info.versIndex == 0 ||
    (info.versIndex < |info.sechdrs| &&
     NumVersions(info) <= |info.sechdrs[info.versIndex].records|)
  }

  /** Index of the first record in [i, n) whose name is symname. */
  function FirstNamed(records: seq<ModVersionInfo>, i: nat, n: nat, symname: string): (r: Option<nat>)
    requires i <= n <= |records|
    ensures r.Some? ==> i <= r.value < n && records[r.value].name == symname
                        && forall j :: i <= j < r.value ==> records[j].name != symname
    ensures r.None? <==> forall j :: i <= j < n ==> records[j].name != symname
    decreases n - i
  {
    if i == n then None
    else if records[i].name == symname then Some(i)
    else FirstNamed(records, i + 1, n, symname)
  }

  /**
   * check_version's verdict (1 as true, 0 as false).  forceLoad is what
   * try_to_force_load returned.
   */
  function VersionOk(info: LoadInfo, symname: string, crc: Option<int32>, forceLoad: int): bool
    requires VersionsReadable(info)
  {
    if crc.None? then true
    else if info.versIndex == 0 then forceLoad == 0
    else
      var records := info.sechdrs[info.versIndex].records;
      match FirstNamed(records, 0, NumVersions(info), symname)
      case None => true
      case Some(i) => records[i].crc == ToU32(crc.value)
  }

  /** check_version: scan the __versions records for symname and compare CRCs. */
  method CheckVersion(info: LoadInfo, symname: string, crc: Option<int32>, forceLoad: int)
    returns (ok: bool)
    requires VersionsReadable(info)
    ensures ok == VersionOk(info, symname, crc, forceLoad)
  {
    if crc.None? {
      return true;
    }
    if info.versIndex == 0 {
      return forceLoad == 0;
    }
    var versions := info.sechdrs[info.versIndex].records;
    var numVersions := info.sechdrs[info.versIndex].size / ModVersionInfoSize;
    var i := 0;
    while i < numVersions
      invariant i <= numVersions
      invariant forall j :: 0 <= j < i ==> versions[j].name != symname
    {
      if versions[i].name != symname {
        i := i + 1;
        continue;
      }
      var crcval := ToU32(crc.value);
      if versions[i].crc == crcval {
        return true;
      }
      return false;
    }
    return true;
  }

  /** check_modstruct_version: check_version on the kernel's own module_layout CRC. */
  method CheckModstructVersion(info: LoadInfo, layoutCrc: Option<int32>, forceLoad: int)
    returns (ok: bool)
    requires VersionsReadable(info)
    ensures ok == VersionOk(info, "module_layout", layoutCrc, forceLoad)
  {
    ok := CheckVersion(info, "module_layout", layoutCrc, forceLoad);
  }

  /** An exporter that supplied no CRC is accepted. */
  lemma NoCrcAccepted(info: LoadInfo, symname: string, forceLoad: int)
    requires VersionsReadable(info)
    ensures VersionOk(info, symname, None, forceLoad)
  {
  }

  /** Without a versions section the verdict is exactly whether forced loading succeeded. */
  lemma NoVersionsMeansForced(info: LoadInfo, symname: string, crc: int32, forceLoad: int)
    requires info.versIndex == 0
    ensures VersionOk(info, symname, Some(crc), forceLoad) <==> forceLoad == 0
  {
  }

  /** The first record named symname decides: equal CRC accepts, a different CRC rejects. */
  lemma FirstMatchDecides(info: LoadInfo, symname: string, crc: int32, forceLoad: int, i: nat)
    requires info.versIndex != 0 && VersionsReadable(info)
    requires i < NumVersions(info)
    requires info.sechdrs[info.versIndex].records[i].name == symname
    requires forall j :: 0 <= j < i ==> info.sechdrs[info.versIndex].records[j].name != symname
    ensures VersionOk(info, symname, Some(crc), forceLoad)
            <==> info.sechdrs[info.versIndex].records[i].crc == ToU32(crc)
  {
    var r := FirstNamed(info.sechdrs[info.versIndex].records, 0, NumVersions(info), symname);
    assert r.Some?;
    assert r.value == i;
  }

  /** A symbol absent from the scanned records is accepted. */
  lemma AbsentSymbolAccepted(info: LoadInfo, symname: string, crc: int32, forceLoad: int)
    requires info.versIndex != 0 && VersionsReadable(info)
    requires forall j :: 0 <= j < NumVersions(info) ==>
               info.sechdrs[info.versIndex].records[j].name != symname
    ensures VersionOk(info, symname, Some(crc), forceLoad)
  {
  }

  /** FirstNamed looks only at the records in [i, n). */
  lemma {:induction false} FirstNamedLooksOnlyBelow(
      r1: seq<ModVersionInfo>, r2: seq<ModVersionInfo>, i: nat, n: nat, symname: string)
    requires i <= n <= |r1| && n <= |r2|
    requires r1[i..n] == r2[i..n]
    ensures FirstNamed(r1, i, n, symname) == FirstNamed(r2, i, n, symname)
    decreases n - i
  {
    if i < n {
      assert r1[i] == r1[i..n][0] == r2[i..n][0] == r2[i];
      assert r1[i + 1..n] == r1[i..n][1..] == r2[i..n][1..] == r2[i + 1..n];
      FirstNamedLooksOnlyBelow(r1, r2, i + 1, n, symname);
    }
  }

  /** The record after the first match for symname is never consulted. */
  lemma LaterRecordsIgnored(info: LoadInfo, info': LoadInfo, symname: string,
                            crc: int32, forceLoad: int, i: nat)
    requires info.versIndex != 0 && VersionsReadable(info)
    requires info'.versIndex == info.versIndex && VersionsReadable(info')
    requires NumVersions(info') == NumVersions(info)
    requires i < NumVersions(info)
    requires info.sechdrs[info.versIndex].records[..i + 1]
             == info'.sechdrs[info.versIndex].records[..i + 1]
    requires info.sechdrs[info.versIndex].records[i].name == symname
    ensures VersionOk(info, symname, Some(crc), forceLoad)
            == VersionOk(info', symname, Some(crc), forceLoad)
  {
    var r1, r2 := info.sechdrs[info.versIndex].records, info'.sechdrs[info.versIndex].records;
    var n := NumVersions(info);
    assert r1[0..i + 1] == r2[0..i + 1];
    FirstNamedLooksOnlyBelow(r1, r2, 0, i + 1, symname);
    var f := FirstNamed(r1, 0, i + 1, symname);
    assert f.Some? && f.value <= i;
    FirstNamedUpTo(r1, 0, i + 1, n, symname);
    FirstNamedUpTo(r2, 0, i + 1, n, symname);
    var k := f.value;
    assert r1[k] == r1[..i + 1][k] == r2[..i + 1][k] == r2[k];
    assert FirstNamed(r1, 0, n, symname) == FirstNamed(r2, 0, n, symname) == Some(k);
  }

  /** A match found in [i, m) is the match in [i, n) for any larger bound n. */
  lemma {:induction false} FirstNamedUpTo(
      records: seq<ModVersionInfo>, i: nat, m: nat, n: nat, symname: string)
    requires i <= m <= n <= |records|
    requires FirstNamed(records, i, m, symname).Some?
    ensures FirstNamed(records, i, n, symname) == FirstNamed(records, i, m, symname)
    decreases m - i
  {
    if records[i].name != symname {
      FirstNamedUpTo(records, i + 1, m, n, symname);
    }
  }

  /** Records beyond sh_size / sizeof(struct modversion_info) are never consulted. */
  lemma OnlyCountedRecordsScanned(info: LoadInfo, info': LoadInfo, symname: string,
                                  crc: Option<int32>, forceLoad: int)
    requires info.versIndex != 0 && VersionsReadable(info)
    requires info'.versIndex == info.versIndex && VersionsReadable(info')
    requires NumVersions(info') == NumVersions(info)
    requires info.sechdrs[info.versIndex].records[..NumVersions(info)]
             == info'.sechdrs[info.versIndex].records[..NumVersions(info)]
    ensures VersionOk(info, symname, crc, forceLoad) == VersionOk(info', symname, crc, forceLoad)
  {
    var r1, r2 := info.sechdrs[info.versIndex].records, info'.sechdrs[info.versIndex].records;
    assert r1[0..NumVersions(info)] == r2[0..NumVersions(info)];
    FirstNamedLooksOnlyBelow(r1, r2, 0, NumVersions(info), symname);
  }

  // ---------------------------------------------------------------------------
  // same_magic (version.c:79-131)
  // ---------------------------------------------------------------------------
  //
  // A cursor into a C string is modelled as the suffix it points at, so
  // "amagic += l3" is "a := a[l3..]" and a cursor may sit on the terminator
  // (the empty suffix) but never beyond it.

  const NUL: char := '\0'

  /** s[0] for a cursor s: the terminator when the cursor is at the end of the string. */
  function Head(s: string): (c: char)
    ensures |s| > 0 ==> c == s[0]
    ensures |s| == 0 ==> c == NUL
  {
    if |s| > 0 then s[0] else NUL
  }

  /** strcspn(s, reject) for a one-character reject set. */
  function Strcspn(s: string, reject: char): (n: nat)
    ensures n <= |s|
  {
    if |s| == 0 || s[0] == reject then 0 else 1 + Strcspn(s[1..], reject)
  }

  /** strcspn counts the characters before the first reject character or the terminator. */
  lemma {:induction false} StrcspnStops(s: string, reject: char)
    ensures var n := Strcspn(s, reject);
            && (n == |s| || s[n] == reject)
            && forall j :: 0 <= j < n ==> s[j] != reject
  {
    if |s| > 0 && s[0] != reject {
      StrcspnStops(s[1..], reject);
    }
  }

  /** strcspn runs through a prefix holding no reject character. */
  lemma {:induction false} StrcspnAppend(x: string, z: string, reject: char)
    requires reject !in x
    ensures Strcspn(x + z, reject) == |x| + Strcspn(z, reject)
    decreases |x|
  {
    if x != [] {
      assert x[0] in x;
      assert (x + z)[0] == x[0] != reject;
      assert (x + z)[1..] == x[1..] + z;
      assert reject !in x[1..] by {
        assert forall k :: 0 <= k < |x[1..]| ==> x[1..][k] == x[k + 1];
      }
      StrcspnAppend(x[1..], z, reject);
    } else {
      assert x + z == z;
    }
  }

  /**
   * same_magic as written, or None when it would read past a terminator.
   * The second half starts with both cursors on the first '-'.
   */
  function MagicAsWritten(a: string, b: string, hasCrcs: bool): (r: Option<bool>)
  {
    if !hasCrcs then Some(a == b)
    else
      var l1, l2 := Strcspn(a, ' '), Strcspn(b, ' ');
      var l3, l4 := Strcspn(a, '-'), Strcspn(b, '-');
      if l3 > l1 || l4 > l2 then Some(a == b)
      else if l3 != l4 || a[..l3] != b[..l4] then Some(false)
      else ReleaseAsWritten(a[l3..], b[l4..])
  }

  /** Lines 105-130 of same_magic as written, on the advanced cursors. */
  function ReleaseAsWritten(a: string, b: string): (r: Option<bool>)
  {
    ReleaseSpans(a, b, Strcspn(a, ' '), Strcspn(b, ' '), Strcspn(a, '.'), Strcspn(b, '.'))
  }

  /** Lines 110-117, given the first-space spans l1, l2 and the first-dot spans l3, l4. */
  function ReleaseSpans(a: string, b: string, l1: nat, l2: nat, l3: nat, l4: nat): (r: Option<bool>)
    requires l1 <= |a| && l2 <= |b| && l3 <= |a| && l4 <= |b|
  {
    if l3 > l1 || l4 > l2 then Some(a == b)
    else if Head(a) == '0' || Head(b) == '0' then Some(a == b)
    else if l3 == |a| || l4 == |b| then None
    else
      var l5 := l3 + 1 + Strcspn(a[l3 + 1..], '.');
      var l6 := l4 + 1 + Strcspn(b[l4 + 1..], '.');
      Some(CompareComponents(a, b, l1, l2, l5, l6))
  }

  /**
   * Lines 119-130, given the first-space spans l1, l2 and the ends l5, l6 of
   * the second release component: compare the release up to there and the
   * text after the space, or fall back to the whole strings.
   */
  function CompareComponents(a: string, b: string, l1: nat, l2: nat, l5: nat, l6: nat): bool
    requires l1 <= |a| && l2 <= |b| && l5 <= |a| && l6 <= |b|
  {
    if l5 > l1 || l6 > l2 then a == b
    else if l5 != l6 || a[..l5] != b[..l6] then false
    else a[l1..] == b[l2..]
  }

  /** same_magic, with goto check_all as a break out of a labelled block. */
  method SameMagic(amagic: string, bmagic: string, hasCrcs: bool) returns (same: bool)
    requires MagicAsWritten(amagic, bmagic, hasCrcs).Some?
    ensures same == MagicAsWritten(amagic, bmagic, hasCrcs).value
  {
    var a, b := amagic, bmagic;
    label check_all: {
      if hasCrcs {
        var l1 := Strcspn(a, ' ');
        var l2 := Strcspn(b, ' ');
        var l3 := Strcspn(a, '-');
        var l4 := Strcspn(b, '-');
        if l3 > l1 || l4 > l2 {
          break check_all;
        }
        if l3 != l4 || a[..l3] != b[..l4] {
          return false;
        }
        a := a[l3..];
        b := b[l4..];

        l1 := Strcspn(a, ' ');
        l2 := Strcspn(b, ' ');
        l3 := Strcspn(a, '.');
        l4 := Strcspn(b, '.');
        if l3 > l1 || l4 > l2 {
          break check_all;
        }
        if Head(a) == '0' || Head(b) == '0' {
          break check_all;
        }
        var l5 := l3 + 1 + Strcspn(a[l3 + 1..], '.');
        var l6 := l4 + 1 + Strcspn(b[l4 + 1..], '.');
        if l5 > l1 || l6 > l2 {
          break check_all;
        }
        if l5 != l6 || a[..l5] != b[..l6] {
          return false;
        }
        a := a[l1..];
        b := b[l2..];
      }
    }
    same := a == b;
  }

  /** Without CRCs the vermagic strings must be identical. */
  lemma MagicWithoutCrcsIsEquality(a: string, b: string)
    ensures MagicAsWritten(a, b, false) == Some(a == b)
  {
  }

  /** Different text before the first '-' rejects, provided each '-' precedes its first space. */
  lemma MagicVersionMismatchRejects(a: string, b: string)
    requires Strcspn(a, '-') <= Strcspn(a, ' ') && Strcspn(b, '-') <= Strcspn(b, ' ')
    requires a[..Strcspn(a, '-')] != b[..Strcspn(b, '-')]
    ensures MagicAsWritten(a, b, true) == Some(false)
  {
  }

  /** A '-' after the first space (in either string) falls back to whole-string equality. */
  lemma MagicDashAfterSpaceFallsBack(a: string, b: string)
    requires Strcspn(a, '-') > Strcspn(a, ' ') || Strcspn(b, '-') > Strcspn(b, ' ')
    ensures MagicAsWritten(a, b, true) == Some(a == b)
  {
  }

  /**
   * The release shapes on which lines 105-117 give up and compare the rest of
   * both strings: a first '.' after the first space, or a first '.' before the
   * space in both strings but a second '.' (or none) beyond it in one of them.
   */
  predicate ReleaseFallsBack(a: string, b: string)
  {
    var l1, l2 := Strcspn(a, ' '), Strcspn(b, ' ');
    var l3, l4 := Strcspn(a, '.'), Strcspn(b, '.');
    l3 > l1 || l4 > l2 ||
    (l3 < l1 && l4 < l2 &&
     (l3 + 1 + Strcspn(a[l3 + 1..], '.') > l1 || l4 + 1 + Strcspn(b[l4 + 1..], '.') > l2))
  }

  /** With equal versions, a release of a fall-back shape is compared by strcmp from the '-' on. */
  lemma MagicReleaseFallsBack(a: string, b: string)
    requires Strcspn(a, '-') <= Strcspn(a, ' ') && Strcspn(b, '-') <= Strcspn(b, ' ')
    requires a[..Strcspn(a, '-')] == b[..Strcspn(b, '-')]
    requires ReleaseFallsBack(a[Strcspn(a, '-')..], b[Strcspn(b, '-')..])
    ensures MagicAsWritten(a, b, true) == Some(a[Strcspn(a, '-')..] == b[Strcspn(b, '-')..])
  {
    CursorOnDash(a);
    CursorOnDash(b);
    ReleaseFallsBackVerdict(a[Strcspn(a, '-')..], b[Strcspn(b, '-')..]);
  }

  /** On cursors of a fall-back shape, the release comparison is strcmp. */
  lemma ReleaseFallsBackVerdict(a: string, b: string)
    requires ReleaseFallsBack(a, b) && Head(a) != '0' && Head(b) != '0'
    ensures ReleaseAsWritten(a, b) == Some(a == b)
  {
    ReleaseAtSpans(a, b, Strcspn(a, ' '), Strcspn(b, ' '), Strcspn(a, '.'), Strcspn(b, '.'));
  }

  /**
   * A module release with a single '.' before the space ("5.18.0-2207.3 SMP")
   * falls back to strcmp against a well-shaped kernel vermagic, which rejects it.
   */
  lemma MagicSingleDotReleaseRejects(v: string, m1: string, m2: string, t: string,
                                     n1: string, n2: string, n3: string, u: string)
    requires WellShaped(v, n1, n2, n3)
    requires '.' !in m1 && ' ' !in m1 && '.' !in m2 && ' ' !in m2
    ensures MagicAsWritten(v + ("-" + (m1 + ("." + (m2 + (" " + t))))), Vermagic(v, n1, n2, n3, u), true) == Some(false)
  {
    var r := "-" + (m1 + ("." + (m2 + (" " + t))));
    var a, b := v + r, Vermagic(v, n1, n2, n3, u);
    StrcspnAppend(v, r, '-');
    StrcspnAppend(v, r, ' ');
    SingleDotSpans(m1, m2, t);
    assert a[|v|..] == r;
    VermagicSpans(v, n1, n2, n3, u);
    ReleaseSpaceSpan(n1, n2, n3, u);
    ReleaseDotSpans(n1, n2, n3, u);
    MagicReleaseFallsBack(a, b);
  }

  /** Where strcspn stops in a release with a single '.' before its space. */
  lemma SingleDotSpans(m1: string, m2: string, t: string)
    requires '.' !in m1 && ' ' !in m1 && '.' !in m2 && ' ' !in m2
    ensures var r := "-" + (m1 + ("." + (m2 + (" " + t))));
            && Strcspn(r, '-') == 0
            && Strcspn(r, ' ') == |m1| + |m2| + 2
            && Strcspn(r, '.') == |m1| + 1
            && Strcspn(r[|m1| + 2..], '.') >= |m2| + 1
  {
    var z3 := " " + t;
    var z2 := m2 + z3;
    var z1 := "." + z2;
    var z0 := m1 + z1;
    var r := "-" + z0;
    StrcspnAppend("-", z0, ' ');
    StrcspnAppend(m1, z1, ' ');
    StrcspnAppend(".", z2, ' ');
    StrcspnAppend(m2, z3, ' ');
    StrcspnAppend("-", z0, '.');
    StrcspnAppend(m1, z1, '.');
    StrcspnAppend(m2, z3, '.');
    assert r[1..] == z0 && z0[|m1|..] == z1 && z1[1..] == z2;
  }

  /** For instance "5.18.0-2207.3 SMP" against "5.18.0-2207.3.1 SMP". */
  lemma MagicSingleDotReleaseExample()
    ensures MagicAsWritten("5.18.0-2207.3 SMP", "5.18.0-2207.3.1 SMP", true) == Some(false)
  {
    assert "5.18.0-2207.3 SMP" == "5.18.0" + ("-" + ("2207" + ("." + ("3" + (" " + "SMP")))));
    assert "5.18.0-2207.3.1 SMP" == Vermagic("5.18.0", "2207", "3", "1", "SMP");
    MagicSingleDotReleaseRejects("5.18.0", "2207", "3", "SMP", "2207", "3", "1", "SMP");
  }

  /** A vermagic string of the documented shape: version '-' m1 '.' m2 '.' m3 ' ' tail. */
  function Vermagic(v: string, m1: string, m2: string, m3: string, tail: string): string
  {
    v + Release(m1, m2, m3, tail)
  }

  /** The part of a vermagic string from the '-' on. */
  function Release(m1: string, m2: string, m3: string, tail: string): string
  {
    "-" + (m1 + ("." + (m2 + ("." + (m3 + (" " + tail))))))
  }

  /** The pieces of Vermagic split where same_magic expects: no separator inside a field. */
  predicate WellShaped(v: string, m1: string, m2: string, m3: string)
  {
    '-' !in v && ' ' !in v && '.' !in m1 && ' ' !in m1 && '.' !in m2 && ' ' !in m2 && ' ' !in m3
  }

  /** A string without the reject character has nothing for strcspn to stop at. */
  lemma StrcspnAbsent(s: string, c: char)
    requires c !in s
    ensures Strcspn(s, c) == |s|
  {
    StrcspnStops(s, c);
  }

  /** Where strcspn stops in a well-shaped vermagic string. */
  lemma VermagicSpans(v: string, m1: string, m2: string, m3: string, t: string)
    requires WellShaped(v, m1, m2, m3)
    ensures var s, i := Vermagic(v, m1, m2, m3, t), |v|;
            && Strcspn(s, '-') == i
            && Strcspn(s, ' ') == i + |m1| + |m2| + |m3| + 3
            && s[..i] == v
            && s[i..] == Release(m1, m2, m3, t)
  {
    StrcspnAppend(v, Release(m1, m2, m3, t), '-');
    StrcspnAppend(v, Release(m1, m2, m3, t), ' ');
    ReleaseSpaceSpan(m1, m2, m3, t);
  }

  /** In the release part, the first space ends m3 and the tail follows it. */
  lemma ReleaseSpaceSpan(m1: string, m2: string, m3: string, t: string)
    requires ' ' !in m1 && ' ' !in m2 && ' ' !in m3
    ensures var s := Release(m1, m2, m3, t);
            && Strcspn(s, ' ') == |m1| + |m2| + |m3| + 3
            && s[|m1| + |m2| + |m3| + 3..] == " " + t
            && Head(s) == '-'
  {
    ReleaseSpaceCount(m1, m2, m3, t);
    ReleaseTail(m1, m2, m3, t);
  }

  /** strcspn on the release steps over m1, m2, m3 and the two dots between them. */
  lemma ReleaseSpaceCount(m1: string, m2: string, m3: string, t: string)
    requires ' ' !in m1 && ' ' !in m2 && ' ' !in m3
    ensures Strcspn(Release(m1, m2, m3, t), ' ') == |m1| + |m2| + |m3| + 3
  {
    var z6 := " " + t;
    var z5 := m3 + z6;
    var z4 := "." + z5;
    var z3 := m2 + z4;
    var z2 := "." + z3;
    var z1 := m1 + z2;
    StrcspnAppend("-", z1, ' ');
    StrcspnAppend(m1, z2, ' ');
    StrcspnAppend(".", z3, ' ');
    StrcspnAppend(m2, z4, ' ');
    StrcspnAppend(".", z5, ' ');
    StrcspnAppend(m3, z6, ' ');
  }

  /** The text of the release from its space on. */
  lemma ReleaseTail(m1: string, m2: string, m3: string, t: string)
    ensures Release(m1, m2, m3, t)[|m1| + |m2| + |m3| + 3..] == " " + t
  {
    var z6 := " " + t;
    var z5 := m3 + z6;
    var z4 := "." + z5;
    var z3 := m2 + z4;
    var z2 := "." + z3;
    var z1 := m1 + z2;
    var s := Release(m1, m2, m3, t);
    assert s[1..] == z1 && z1[|m1|..] == z2 && z2[1..] == z3;
    assert z3[|m2|..] == z4 && z4[1..] == z5 && z5[|m3|..] == z6;
  }

  /** In the release part, the first two '.' end m1 and m2. */
  lemma ReleaseDotSpans(m1: string, m2: string, m3: string, t: string)
    requires '.' !in m1 && '.' !in m2
    ensures var s := Release(m1, m2, m3, t);
            && Strcspn(s, '.') == |m1| + 1
            && Strcspn(s[|m1| + 2..], '.') == |m2|
            && s[..|m1| + |m2| + 2] == "-" + (m1 + ("." + m2))
  {
    var z4 := "." + (m3 + (" " + t));
    var z3 := m2 + z4;
    var z2 := "." + z3;
    var z1 := m1 + z2;
    var s := Release(m1, m2, m3, t);
    StrcspnAppend("-", z1, '.');
    StrcspnAppend(m1, z2, '.');
    StrcspnAppend(m2, z4, '.');
    assert s[|m1| + 2..] == z3;
    ReleaseHead(m1, m2, m3, t);
  }

  /** The release up to the end of its second component. */
  lemma ReleaseHead(m1: string, m2: string, m3: string, t: string)
    ensures Release(m1, m2, m3, t)[..|m1| + |m2| + 2] == "-" + (m1 + ("." + m2))
  {
    var z4 := "." + (m3 + (" " + t));
    var z3 := m2 + z4;
    var z2 := "." + z3;
    var z1 := m1 + z2;
    assert z3[..|m2|] == m2;
    assert z2[..|m2| + 1] == "." + m2;
    assert z1[..|m1| + |m2| + 1] == m1 + ("." + m2);
  }

  /** Text split at the first occurrence of a separator determines both halves. */
  lemma SplitAtSeparator(x: string, y: string, x': string, y': string, c: char)
    requires c !in x && c !in x'
    ensures x + ([c] + y) == x' + ([c] + y') <==> x == x' && y == y'
  {
    StrcspnAppend(x, [c] + y, c);
    StrcspnAppend(x', [c] + y', c);
    if x + ([c] + y) == x' + ([c] + y') {
      assert x == (x + ([c] + y))[..|x|];
      assert x' == (x' + ([c] + y'))[..|x'|];
      assert y == (x + ([c] + y))[|x| + 1..];
      assert y' == (x' + ([c] + y'))[|x'| + 1..];
    }
  }

  /** The release comparison on two well-shaped release parts. */
  lemma ReleaseComparesTwoComponentsAndTail(
      m1: string, m2: string, m3: string, t: string,
      m1': string, m2': string, m3': string, t': string)
    requires '.' !in m1 && ' ' !in m1 && '.' !in m2 && ' ' !in m2 && ' ' !in m3
    requires '.' !in m1' && ' ' !in m1' && '.' !in m2' && ' ' !in m2' && ' ' !in m3'
    ensures ReleaseAsWritten(Release(m1, m2, m3, t), Release(m1', m2', m3', t'))
            == Some(m1 == m1' && m2 == m2' && t == t')
  {
    var a, b := Release(m1, m2, m3, t), Release(m1', m2', m3', t');
    ReleaseMeasures(m1, m2, m3, t);
    ReleaseMeasures(m1', m2', m3', t');
    var l1, l2 := |m1| + |m2| + |m3| + 3, |m1'| + |m2'| + |m3'| + 3;
    ReleaseHead(m1, m2, m3, t);
    ReleaseHead(m1', m2', m3', t');
    ReleaseTail(m1, m2, m3, t);
    ReleaseTail(m1', m2', m3', t');
    var p, p' := "-" + (m1 + ("." + m2)), "-" + (m1' + ("." + m2'));
    ReleaseVerdictOn(a, b, l1, l2, |m1| + 1, |m1'| + 1, |m2|, |m2'|, p, p', " " + t, " " + t');
    DashedPrefixCompare(m1, m2, m1', m2');
    SpacedTailCompare(t, t');
  }

  /** ReleaseVerdict, with the compared prefixes p, p' and the tails q, q' named. */
  lemma ReleaseVerdictOn(a: string, b: string, l1: nat, l2: nat, l3: nat, l4: nat, m: nat, n: nat,
                         p: string, p': string, q: string, q': string)
    requires Strcspn(a, ' ') == l1 && Strcspn(b, ' ') == l2
    requires Strcspn(a, '.') == l3 && Strcspn(b, '.') == l4
    requires l3 < |a| && l4 < |b| && Head(a) != '0' && Head(b) != '0'
    requires Strcspn(a[l3 + 1..], '.') == m && Strcspn(b[l4 + 1..], '.') == n
    requires l3 + 1 + m <= l1 && l4 + 1 + n <= l2
    requires a[..l3 + 1 + m] == p && b[..l4 + 1 + n] == p' && a[l1..] == q && b[l2..] == q'
    ensures ReleaseAsWritten(a, b) == Some(p == p' && q == q')
  {
    ReleaseVerdict(a, b, l1, l2, l3, l4, m, n);
  }

  /** The spans the release comparison measures on one well-shaped release part. */
  lemma ReleaseMeasures(m1: string, m2: string, m3: string, t: string)
    requires '.' !in m1 && ' ' !in m1 && '.' !in m2 && ' ' !in m2 && ' ' !in m3
    ensures var s, l1, l3 := Release(m1, m2, m3, t), |m1| + |m2| + |m3| + 3, |m1| + 1;
            && Strcspn(s, ' ') == l1 && Strcspn(s, '.') == l3
            && l3 < |s| && Head(s) != '0'
            && Strcspn(s[l3 + 1..], '.') == |m2| && l3 + 1 + |m2| <= l1
  {
    ReleaseSpaceSpan(m1, m2, m3, t);
    ReleaseDotSpans(m1, m2, m3, t);
  }

  /** The release comparison once every span it measures is known and in bounds. */
  lemma ReleaseVerdict(a: string, b: string, l1: nat, l2: nat, l3: nat, l4: nat, m: nat, n: nat)
    requires Strcspn(a, ' ') == l1 && Strcspn(b, ' ') == l2
    requires Strcspn(a, '.') == l3 && Strcspn(b, '.') == l4
    requires l3 < |a| && l4 < |b| && Head(a) != '0' && Head(b) != '0'
    requires Strcspn(a[l3 + 1..], '.') == m && Strcspn(b[l4 + 1..], '.') == n
    requires l3 + 1 + m <= l1 && l4 + 1 + n <= l2
    ensures ReleaseAsWritten(a, b)
            == if l3 + 1 + m != l4 + 1 + n || a[..l3 + 1 + m] != b[..l4 + 1 + n] then Some(false)
               else Some(a[l1..] == b[l2..])
  {
    ReleaseAtSpans(a, b, l1, l2, l3, l4);
    SpansReachComponents(a, b, l1, l2, l3, l4, m, n);
  }

  /** The release comparison tests the spans strcspn measures on the two cursors. */
  lemma ReleaseAtSpans(a: string, b: string, l1: nat, l2: nat, l3: nat, l4: nat)
    requires Strcspn(a, ' ') == l1 && Strcspn(b, ' ') == l2
    requires Strcspn(a, '.') == l3 && Strcspn(b, '.') == l4
    ensures l1 <= |a| && l2 <= |b| && l3 <= |a| && l4 <= |b|
    ensures ReleaseAsWritten(a, b) == ReleaseSpans(a, b, l1, l2, l3, l4)
  {
  }

  /** Once each '.' precedes its space and no test build is seen, the components are compared. */
  lemma SpansReachComponents(a: string, b: string, l1: nat, l2: nat, l3: nat, l4: nat, m: nat, n: nat)
    requires l1 <= |a| && l2 <= |b| && l3 <= l1 && l4 <= l2
    requires l3 < |a| && l4 < |b| && Head(a) != '0' && Head(b) != '0'
    requires Strcspn(a[l3 + 1..], '.') == m && Strcspn(b[l4 + 1..], '.') == n
    ensures l3 + 1 + m <= |a| && l4 + 1 + n <= |b|
    ensures ReleaseSpans(a, b, l1, l2, l3, l4) == Some(CompareComponents(a, b, l1, l2, l3 + 1 + m, l4 + 1 + n))
  {
  }

  /** Two "-m1.m2" prefixes agree exactly when both components do. */
  lemma DashedPrefixCompare(m1: string, m2: string, m1': string, m2': string)
    requires '.' !in m1 && '.' !in m1'
    ensures "-" + (m1 + ("." + m2)) == "-" + (m1' + ("." + m2')) <==> m1 == m1' && m2 == m2'
  {
    SplitAtSeparator(m1, m2, m1', m2', '.');
    var r, r' := "-" + (m1 + ("." + m2)), "-" + (m1' + ("." + m2'));
    assert r == r' <==> r[1..] == r'[1..];
  }

  /** Two " t" tails agree exactly when the texts after the space do. */
  lemma SpacedTailCompare(t: string, t': string)
    ensures (" " + t == " " + t') <==> t == t'
  {
    assert (" " + t)[1..] == t && (" " + t')[1..] == t';
  }

  /**
   * For two vermagic strings of the documented shape the verdict is: the
   * versions agree, the releases agree in their first two '.'-separated
   * components, and the tails after the first space agree.  The release's
   * remaining components (m3) are not compared.
   */
  lemma MagicComparesVersionReleaseAndTail(
      v: string, m1: string, m2: string, m3: string, t: string,
      v': string, m1': string, m2': string, m3': string, t': string)
    requires WellShaped(v, m1, m2, m3) && WellShaped(v', m1', m2', m3')
    ensures MagicAsWritten(Vermagic(v, m1, m2, m3, t), Vermagic(v', m1', m2', m3', t'), true)
            == Some(v == v' && m1 == m1' && m2 == m2' && t == t')
  {
    VermagicSpans(v, m1, m2, m3, t);
    VermagicSpans(v', m1', m2', m3', t');
    ReleaseComparesTwoComponentsAndTail(m1, m2, m3, t, m1', m2', m3', t');
  }

  /** Spaces in both strings keep every read inside them. */
  lemma SpaceKeepsReadsInBounds(a: string, b: string, hasCrcs: bool)
    requires ' ' in a && ' ' in b
    ensures MagicAsWritten(a, b, hasCrcs).Some?
  {
    if hasCrcs {
      SpaceFound(a);
      SpaceFound(b);
      var l3, l4 := Strcspn(a, '-'), Strcspn(b, '-');
      if l3 <= Strcspn(a, ' ') && l4 <= Strcspn(b, ' ') {
        StrcspnStops(a, '-');
        StrcspnStops(b, '-');
        assert a[Strcspn(a, ' ')] == ' ' && b[Strcspn(b, ' ')] == ' ';
        assert a[l3..][Strcspn(a, ' ') - l3] == ' ';
        assert b[l4..][Strcspn(b, ' ') - l4] == ' ';
        SpaceFound(a[l3..]);
        SpaceFound(b[l4..]);
      }
    }
  }

  /** With a space present, strcspn for ' ' stops on it, and strcspn for '.' stops no later. */
  lemma SpaceFound(s: string)
    requires ' ' in s
    ensures Strcspn(s, ' ') < |s| && s[Strcspn(s, ' ')] == ' '
  {
    StrcspnStops(s, ' ');
  }

  /** same_magic never rejects a string compared with itself. */
  lemma MagicReflexive(a: string, hasCrcs: bool)
    ensures MagicAsWritten(a, a, hasCrcs) != Some(false)
  {
  }

  /** same_magic does not care which string is the module's and which the kernel's. */
  lemma MagicSymmetric(a: string, b: string, hasCrcs: bool)
    ensures MagicAsWritten(a, b, hasCrcs) == MagicAsWritten(b, a, hasCrcs)
  {
    if hasCrcs {
      ReleaseSymmetric(a[Strcspn(a, '-')..], b[Strcspn(b, '-')..]);
    }
  }

  /** The release comparison is symmetric. */
  lemma ReleaseSymmetric(a: string, b: string)
    ensures ReleaseAsWritten(a, b) == ReleaseAsWritten(b, a)
  {
    var l1, l2, l3, l4 := Strcspn(a, ' '), Strcspn(b, ' '), Strcspn(a, '.'), Strcspn(b, '.');
    ReleaseAtSpans(a, b, l1, l2, l3, l4);
    ReleaseAtSpans(b, a, l2, l1, l4, l3);
  }

  /**
   * At line 113 the cursors sit on the '-' (or on the terminator), so the
   * test for a '0' there never succeeds.
   */
  lemma CursorOnDash(s: string)
    ensures Head(s[Strcspn(s, '-')..]) == '-' || Head(s[Strcspn(s, '-')..]) == NUL
  {
    StrcspnStops(s, '-');
  }

  // ---------------------------------------------------------------------------
  // same_magic corrected: line 110 compares with >=, line 113 looks past the '-'
  // ---------------------------------------------------------------------------

  /** A test build: the first character of the release after the '-' is '0'. */
  predicate TestBuild(s: string)
  {
    var d := Strcspn(s, '-');
    d < |s| && Head(s[d + 1..]) == '0'
  }

  /** same_magic with both corrections; every read stays at or before a terminator. */
  function SameMagicFixed(a: string, b: string, hasCrcs: bool): bool
  {
    if !hasCrcs then a == b
    else
      var l1, l2 := Strcspn(a, ' '), Strcspn(b, ' ');
      var l3, l4 := Strcspn(a, '-'), Strcspn(b, '-');
      if l3 > l1 || l4 > l2 then a == b
      else if l3 != l4 || a[..l3] != b[..l4] then false
      else ReleaseFixed(a[l3..], b[l4..])
  }

  /** Lines 105-130 corrected: a '.' must come strictly before the space, and test builds are checked in full. */
  function ReleaseFixed(a: string, b: string): bool
  {
    FixedSpans(a, b, Strcspn(a, ' '), Strcspn(b, ' '), Strcspn(a, '.'), Strcspn(b, '.'))
  }

  /** The corrected lines 110-117, given the first-space and first-dot spans. */
  function FixedSpans(a: string, b: string, l1: nat, l2: nat, l3: nat, l4: nat): bool
    requires l1 <= |a| && l2 <= |b| && l3 <= |a| && l4 <= |b|
  {
    if l3 >= l1 || l4 >= l2 then a == b
    else if Head(a[1..]) == '0' || Head(b[1..]) == '0' then a == b
    else
      var l5 := l3 + 1 + Strcspn(a[l3 + 1..], '.');
      var l6 := l4 + 1 + Strcspn(b[l4 + 1..], '.');
      CompareComponents(a, b, l1, l2, l5, l6)
  }

  /** The corrected release comparison tests the spans strcspn measures on the two cursors. */
  lemma FixedAtSpans(a: string, b: string, l1: nat, l2: nat, l3: nat, l4: nat)
    requires Strcspn(a, ' ') == l1 && Strcspn(b, ' ') == l2
    requires Strcspn(a, '.') == l3 && Strcspn(b, '.') == l4
    ensures l1 <= |a| && l2 <= |b| && l3 <= |a| && l4 <= |b|
    ensures ReleaseFixed(a, b) == FixedSpans(a, b, l1, l2, l3, l4)
  {
  }

  /**
   * On spans that end on their separator or at the end, the two release
   * comparisons agree wherever the one as written reads inside the strings
   * and neither release is a test build.
   */
  lemma FixedSpansAgree(a: string, b: string, l1: nat, l2: nat, l3: nat, l4: nat)
    requires l1 <= |a| && l2 <= |b| && l3 <= |a| && l4 <= |b|
    requires (l1 == |a| || a[l1] == ' ') && (l3 == |a| || a[l3] == '.')
    requires (l2 == |b| || b[l2] == ' ') && (l4 == |b| || b[l4] == '.')
    requires ReleaseSpans(a, b, l1, l2, l3, l4).Some?
    requires Head(a) != '0' && Head(b) != '0'
    requires (|a| > 0 ==> Head(a[1..]) != '0') && (|b| > 0 ==> Head(b[1..]) != '0')
    ensures FixedSpans(a, b, l1, l2, l3, l4) == ReleaseSpans(a, b, l1, l2, l3, l4).value
  {
  }

  /** The release comparisons agree on cursors where the one as written reads in bounds. */
  lemma ReleaseFixedAgrees(a: string, b: string)
    requires ReleaseAsWritten(a, b).Some?
    requires Head(a) != '0' && Head(b) != '0'
    requires (|a| > 0 ==> Head(a[1..]) != '0') && (|b| > 0 ==> Head(b[1..]) != '0')
    ensures ReleaseFixed(a, b) == ReleaseAsWritten(a, b).value
  {
    var l1, l2, l3, l4 := Strcspn(a, ' '), Strcspn(b, ' '), Strcspn(a, '.'), Strcspn(b, '.');
    StrcspnStops(a, ' ');
    StrcspnStops(b, ' ');
    StrcspnStops(a, '.');
    StrcspnStops(b, '.');
    ReleaseAtSpans(a, b, l1, l2, l3, l4);
    FixedAtSpans(a, b, l1, l2, l3, l4);
    FixedSpansAgree(a, b, l1, l2, l3, l4);
  }

  /** Wherever same_magic as written reads only inside its strings, and no test build is involved, the corrected version agrees. */
  lemma FixedAgreesWhereInBounds(a: string, b: string, hasCrcs: bool)
    requires MagicAsWritten(a, b, hasCrcs).Some?
    requires !TestBuild(a) && !TestBuild(b)
    ensures SameMagicFixed(a, b, hasCrcs) == MagicAsWritten(a, b, hasCrcs).value
  {
    if hasCrcs {
      var l1, l2 := Strcspn(a, ' '), Strcspn(b, ' ');
      var l3, l4 := Strcspn(a, '-'), Strcspn(b, '-');
      if l3 <= l1 && l4 <= l2 && l3 == l4 && a[..l3] == b[..l4] {
        CursorOnDash(a);
        CursorOnDash(b);
        if l3 < |a| {
          assert a[l3..][1..] == a[l3 + 1..];
        }
        if l4 < |b| {
          assert b[l4..][1..] == b[l4 + 1..];
        }
        ReleaseFixedAgrees(a[l3..], b[l4..]);
      }
    }
  }

  /** The corrected version does the full check the comment asks for on a test build. */
  lemma FixedTestBuildFullCheck(a: string, b: string)
    requires TestBuild(a) || TestBuild(b)
    ensures SameMagicFixed(a, b, true) == (a == b)
  {
    var l3, l4 := Strcspn(a, '-'), Strcspn(b, '-');
    if l3 <= Strcspn(a, ' ') && l4 <= Strcspn(b, ' ') && l3 == l4 && a[..l3] == b[..l4] {
      assert a == a[..l3] + a[l3..] && b == b[..l4] + b[l4..];
    }
  }

  /** A release starting with '0' is a test build. */
  lemma TestBuildShape(v: string, m1: string, m2: string, m3: string, t: string)
    requires WellShaped(v, m1, m2, m3) && |m1| > 0 && m1[0] == '0'
    ensures TestBuild(Vermagic(v, m1, m2, m3, t))
  {
    VermagicSpans(v, m1, m2, m3, t);
    var s := Vermagic(v, m1, m2, m3, t);
    assert s[|v|..][1..] == s[|v| + 1..];
    assert Release(m1, m2, m3, t)[1] == m1[0];
  }

  /** The corrected version accepts equal strings. */
  lemma FixedReflexive(a: string, hasCrcs: bool)
    ensures SameMagicFixed(a, a, hasCrcs)
  {
  }

  /** The corrected version is symmetric. */
  lemma FixedSymmetric(a: string, b: string, hasCrcs: bool)
    ensures SameMagicFixed(a, b, hasCrcs) == SameMagicFixed(b, a, hasCrcs)
  {
    if hasCrcs {
      var a', b' := a[Strcspn(a, '-')..], b[Strcspn(b, '-')..];
      var l1, l2, l3, l4 := Strcspn(a', ' '), Strcspn(b', ' '), Strcspn(a', '.'), Strcspn(b', '.');
      FixedAtSpans(a', b', l1, l2, l3, l4);
      FixedAtSpans(b', a', l2, l1, l4, l3);
    }
  }

  /**
   * A module vermagic cut short after a release without '.' or space makes
   * line 116 read past its terminator, whatever well-shaped kernel vermagic
   * it is compared with.
   */
  lemma OverreadOnTruncatedRelease(v: string, r: string, m1: string, m2: string, m3: string, t: string)
    requires WellShaped(v, m1, m2, m3) && '.' !in r && ' ' !in r
    ensures MagicAsWritten(v + "-" + r, Vermagic(v, m1, m2, m3, t), true) == None
  {
    var a := v + "-" + r;
    assert a == v + ("-" + r);
    StrcspnAppend(v, "-" + r, '-');
    assert ' ' !in a;
    StrcspnAbsent(a, ' ');
    VermagicSpans(v, m1, m2, m3, t);
    ReleaseSpaceSpan(m1, m2, m3, t);
    ReleaseDotSpans(m1, m2, m3, t);
    var a' := a[|v|..];
    assert a' == "-" + r;
    assert ' ' !in a' && '.' !in a';
    StrcspnAbsent(a', ' ');
    StrcspnAbsent(a', '.');
  }

  /** For instance a module built for "5.18.0-2207" against a kernel "5.18.0-2207.3.0.tks SMP". */
  lemma OverreadExample()
    ensures MagicAsWritten("5.18.0-2207", "5.18.0-2207.3.0.tks SMP", true) == None
  {
    assert "5.18.0-2207" == "5.18.0" + "-" + "2207";
    assert "5.18.0-2207.3.0.tks SMP" == Vermagic("5.18.0", "2207", "3", "0.tks", "SMP");
    OverreadOnTruncatedRelease("5.18.0", "2207", "2207", "3", "0.tks", "SMP");
  }

  /**
   * The corrected version reads nothing past a terminator on the same inputs:
   * it falls back to comparing the whole strings.
   */
  lemma FixedTruncatedReleaseFallsBack(v: string, r: string, m1: string, m2: string, m3: string, t: string)
    requires WellShaped(v, m1, m2, m3) && '.' !in r && ' ' !in r
    ensures SameMagicFixed(v + "-" + r, Vermagic(v, m1, m2, m3, t), true) == (v + "-" + r == Vermagic(v, m1, m2, m3, t))
  {
    var a := v + "-" + r;
    assert a == v + ("-" + r);
    StrcspnAppend(v, "-" + r, '-');
    assert ' ' !in a;
    StrcspnAbsent(a, ' ');
    VermagicSpans(v, m1, m2, m3, t);
    ReleaseSpaceSpan(m1, m2, m3, t);
    ReleaseDotSpans(m1, m2, m3, t);
    var a' := a[|v|..];
    assert a' == "-" + r;
    assert ' ' !in a' && '.' !in a';
    StrcspnAbsent(a', ' ');
    StrcspnAbsent(a', '.');
    var b := Vermagic(v, m1, m2, m3, t);
    assert a == a[..|v|] + a' && b == b[..|v|] + b[|v|..];
  }

  /** The module built for "5.18.0-2207" is then simply rejected. */
  lemma FixedTruncatedReleaseExample()
    ensures !SameMagicFixed("5.18.0-2207", "5.18.0-2207.3.0.tks SMP", true)
  {
    assert "5.18.0-2207" == "5.18.0" + "-" + "2207";
    assert "5.18.0-2207.3.0.tks SMP" == Vermagic("5.18.0", "2207", "3", "0.tks", "SMP");
    FixedTruncatedReleaseFallsBack("5.18.0", "2207", "2207", "3", "0.tks", "SMP");
  }

  /** Two test builds differing only in the third release component are accepted as written... */
  lemma TestBuildAcceptedAsWritten()
    ensures MagicAsWritten("5.18.0-0.1.0 SMP", "5.18.0-0.1.5 SMP", true) == Some(true)
  {
    assert "5.18.0-0.1.0 SMP" == Vermagic("5.18.0", "0", "1", "0", "SMP");
    assert "5.18.0-0.1.5 SMP" == Vermagic("5.18.0", "0", "1", "5", "SMP");
    MagicComparesVersionReleaseAndTail("5.18.0", "0", "1", "0", "SMP", "5.18.0", "0", "1", "5", "SMP");
  }

  /** ...and rejected by the corrected version, which checks them in full. */
  lemma TestBuildRejectedWhenFixed()
    ensures !SameMagicFixed("5.18.0-0.1.0 SMP", "5.18.0-0.1.5 SMP", true)
  {
    var a := "5.18.0-0.1.0 SMP";
    assert a == Vermagic("5.18.0", "0", "1", "0", "SMP");
    TestBuildShape("5.18.0", "0", "1", "0", "SMP");
    FixedTestBuildFullCheck(a, "5.18.0-0.1.5 SMP");
  }
}
