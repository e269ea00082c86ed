/** The stat record kept as decimal text in a dictionary: src/metadata.c. */
module Metadata {
  import opened Common

  const TWO32: int := 0x1_0000_0000
  const TWO63: int := 0x8000_0000_0000_0000
  const TWO64: int := 0x1_0000_0000_0000_0000

  type u32 = x: int | 0 <= x < 0x1_0000_0000
  type i64 = x: int | -0x8000_0000_0000_0000 <= x < 0x8000_0000_0000_0000

  /** The fields of `struct stat` that travel: `mode_t`, `uid_t` and `gid_t` are unsigned
      32-bit, `off_t` and `time_t` signed 64-bit. */
  datatype Stat = Stat(mode: u32, size: i64, uid: u32, gid: u32, atime: i64, mtime: i64, ctime: i64)

  // ---- integer conversions ----

  /** `(unsigned long) v` */
  function ToULong(v: int): (u: nat)
    ensures u < TWO64
  {
    v % TWO64
  }

  /** `unsigned long long` to `long long`, and to `off_t` or `time_t` */
  function ToLongLong(u: nat): (v: i64)
    requires u < TWO64
  {
    if u < TWO63 then u else u - TWO64
  }

  /** A 64-bit value cut to an unsigned 32-bit one. */
  function ToU32(v: int): u32 { v % TWO32 }

  // ---- decimal text ----

  predicate IsDigit(c: char) { '0' <= c <= '9' }

  function DigitValue(c: char): nat
    requires IsDigit(c)
  {
    (c as int) - ('0' as int)
  }

  function DigitChar(d: nat): (c: char)
    requires d < 10
    ensures IsDigit(c) && DigitValue(c) == d
  {
    (d + 48) as char
  }

  /** `printf("%lu", n)` */
  function ToText(n: nat): (s: string)
    ensures s != [] && forall i :: 0 <= i < |s| ==> IsDigit(s[i])
  {
    if n < 10 then [DigitChar(n)] else ToText(n / 10) + [DigitChar(n % 10)]
  }

  /** The leading digits of `s`, read after a number whose value so far is `acc`. */
  function Scan(s: string, acc: nat): nat
    decreases |s|
  {
    if s == [] || !IsDigit(s[0]) then acc else Scan(s[1..], acc * 10 + DigitValue(s[0]))
  }

  predicate IsSpace(c: char) { c in " \t\n\r" || c as int in {11, 12} }

  /** `strtoull(s, NULL, 10)`: blanks, a sign, digits; saturates, and negates modulo 2^64. */
  function StrToULL(s: string): (n: nat)
    ensures n < TWO64
    decreases |s|
  {
    if s != [] && IsSpace(s[0]) then StrToULL(s[1..])
    else
      var signed := s != [] && s[0] in "+-";
      var v: int := Scan(if signed then s[1..] else s, 0);
      if v >= TWO64 then TWO64 - 1
      else if signed && s[0] == '-' then ToULong(-v)
      else v
  }

  lemma {:induction false} ScanAppend(s: string, c: char, acc: nat)
    requires forall i :: 0 <= i < |s| ==> IsDigit(s[i])
    requires IsDigit(c)
    ensures Scan(s + [c], acc) == Scan(s, acc) * 10 + DigitValue(c)
    decreases |s|
  {
    if s == [] {
      assert Scan([c], acc) == Scan([], acc * 10 + DigitValue(c));
    } else {
      assert (s + [c])[1..] == s[1..] + [c];
      ScanAppend(s[1..], c, acc * 10 + DigitValue(s[0]));
    }
  }

  lemma {:induction false} ScanText(n: nat)
    ensures Scan(ToText(n), 0) == n
  {
    if n < 10 {
      assert Scan([DigitChar(n)], 0) == Scan([], n);
    } else {
      ScanText(n / 10);
      ScanAppend(ToText(n / 10), DigitChar(n % 10), 0);
    }
  }

  /** Text written with `%lu` is read back as the number that was written. */
  lemma TextRoundTrip(n: nat)
    requires n < TWO64
    ensures StrToULL(ToText(n)) == n
  {
    ScanText(n);
    var s := ToText(n);
    assert IsDigit(s[0]);
  }

  /** Other texts: larger numbers saturate, a sign and blanks are read, anything else reads as zero. */
  lemma TextForms(n: nat, c: char, s: string)
    ensures TWO64 <= n ==> StrToULL(ToText(n)) == TWO64 - 1
    ensures n < TWO64 ==> StrToULL("-" + ToText(n)) == (if n == 0 then 0 else TWO64 - n)
    ensures n < TWO64 ==> StrToULL("+" + ToText(n)) == n
    ensures IsSpace(c) ==> StrToULL([c] + s) == StrToULL(s)
    ensures !IsSpace(c) && !IsDigit(c) && c != '+' && c != '-' ==> StrToULL([c] + s) == 0
    ensures StrToULL([]) == 0
  {
    ScanText(n);
    assert IsDigit(ToText(n)[0]);
    assert ("-" + ToText(n))[1..] == ToText(n) && ("+" + ToText(n))[1..] == ToText(n);
    assert ([c] + s)[1..] == s;
  }

  // ---- dictionaries and stat records ----

  /** fill_metadata_from_stat: seven fields, each as the text of its 64-bit pattern. */
  function FillMetadataFromStat(dict: Dict, st: Stat): Dict {
    dict["mode" := ToText(ToULong(st.mode))]
        ["size" := ToText(ToULong(st.size))]
        ["uid" := ToText(ToULong(st.uid))]
        ["gid" := ToText(ToULong(st.gid))]
        ["atime" := ToText(ToULong(st.atime))]
        ["mtime" := ToText(ToULong(st.mtime))]
        ["ctime" := ToText(ToULong(st.ctime))]
  }

  /** metadatatoll: -1 stands for an absent field. */
  function MetadataToLL(dict: Dict, name: string): i64 {
    if name in dict then ToLongLong(StrToULL(dict[name])) else -1
  }

  /** `m | S_IFLNK`, that is bits 13 and 15 */
  function OrLink(m: u32): u32 {
    var a := if (m / 8192) % 2 == 0 then m + 8192 else m;
    if (a / 32768) % 2 == 0 then (a + 32768) % TWO32 else a
  }

  /** Bits 13 and 15 are set, and no other bit changes. */
  lemma OrLinkBits(m: u32)
    ensures var r := OrLink(m);
            && (r / 8192) % 2 == 1 && (r / 32768) % 2 == 1
            && r % 8192 == m % 8192 && (r / 16384) % 2 == (m / 16384) % 2 && r / 65536 == m / 65536
  {
    var l, b13, b14, b15, h := m % 8192, (m / 8192) % 2, (m / 16384) % 2, (m / 32768) % 2, m / 65536;
    BitsSum(m);
    var a := if b13 == 0 then m + 8192 else m;
    BitsOf(a, h, b15, b14, 1, l);
    BitsOf(if b15 == 0 then a + 32768 else a, h, 1, b14, 1, l);
    assert h < 65536;
  }

  lemma BitsSum(m: nat)
    ensures m == m / 65536 * 65536 + m / 32768 % 2 * 32768 + m / 16384 % 2 * 16384 + m / 8192 % 2 * 8192 + m % 8192
  {
    Halves(m);
  }

  lemma Halves(m: nat)
    ensures m / 16384 == m / 8192 / 2 && m / 32768 == m / 16384 / 2 && m / 65536 == m / 32768 / 2
  {
  }

  lemma BitsOf(x: nat, h: nat, b15: nat, b14: nat, b13: nat, l: nat)
    requires b15 < 2 && b14 < 2 && b13 < 2 && l < 8192
    requires x == h * 65536 + b15 * 32768 + b14 * 16384 + b13 * 8192 + l
    ensures x / 65536 == h && (x / 32768) % 2 == b15 && (x / 16384) % 2 == b14 && (x / 8192) % 2 == b13
    ensures x % 8192 == l
  {
    LowBits(x, h * 8 + b15 * 4 + b14 * 2 + b13, l);
    Halves(x);
  }

  lemma LowBits(x: nat, q: nat, l: nat)
    requires l < 8192 && x == q * 8192 + l
    ensures x / 8192 == q && x % 8192 == l
  {
  }

  /** The seven numbers read from a dictionary, and whether it names a symbolic link. */
  datatype Fields = Fields(size: i64, mode: i64, uid: i64, gid: i64, atime: i64, ctime: i64, mtime: i64, link: bool)

  function ReadFields(dict: Dict): Fields {
    Fields(MetadataToLL(dict, "size"), MetadataToLL(dict, "mode"), MetadataToLL(dict, "uid"),
           MetadataToLL(dict, "gid"), MetadataToLL(dict, "atime"), MetadataToLL(dict, "ctime"),
           MetadataToLL(dict, "mtime"), "symlink" in dict)
  }

  /** A field that reads as -1 leaves the record alone. */
  function StoreFields(st: Stat, f: Fields): Stat {
    var m := if f.mode != -1 then ToU32(f.mode) else st.mode;
    Stat(if f.link then OrLink(m) else m,
         if f.size != -1 then ToLongLong(ToULong(f.size)) else st.size,
         if f.uid != -1 then ToU32(f.uid) else st.uid,
         if f.gid != -1 then ToU32(f.gid) else st.gid,
         if f.atime != -1 then f.atime else st.atime,
         if f.mtime != -1 then f.mtime else st.mtime,
         if f.ctime != -1 then f.ctime else st.ctime)
  }

  /** fill_stat_from_metadata */
  function StatFromMetadata(st: Stat, dict: Dict): Stat {
    StoreFields(st, ReadFields(dict))
  }

  /** One field, through the 64-bit pattern, the text and the signed value. */
  lemma FieldRoundTrip(dict: Dict, name: string, v: int)
    requires -TWO63 <= v < TWO63
    requires name in dict && dict[name] == ToText(ToULong(v))
    ensures MetadataToLL(dict, name) == v
  {
    TextRoundTrip(ToULong(v));
  }

  /** The eight names are different, so each keeps the text that was stored under it. */
  lemma FilledNames(dict: Dict, st: Stat)
    ensures var d := FillMetadataFromStat(dict, st);
            && {"mode", "size", "uid", "gid", "atime", "mtime", "ctime"} <= d.Keys
            && d["mode"] == ToText(ToULong(st.mode)) && d["size"] == ToText(ToULong(st.size))
            && d["uid"] == ToText(ToULong(st.uid)) && d["gid"] == ToText(ToULong(st.gid))
            && d["atime"] == ToText(ToULong(st.atime)) && d["mtime"] == ToText(ToULong(st.mtime))
            && d["ctime"] == ToText(ToULong(st.ctime))
            && (forall k :: k !in {"mode", "size", "uid", "gid", "atime", "mtime", "ctime"} ==>
                  ((k in d) == (k in dict)) && (k in dict ==> d[k] == dict[k]))
  {
    assert "mode"[0] != "size"[0];
    assert "uid"[0] != "gid"[0];
    assert "atime"[0] != "mtime"[0] && "atime"[0] != "ctime"[0] && "mtime"[0] != "ctime"[0];
  }

  lemma FieldsRoundTrip(dict: Dict, st: Stat)
    ensures ReadFields(FillMetadataFromStat(dict, st)) ==
            Fields(st.size, st.mode, st.uid, st.gid, st.atime, st.ctime, st.mtime, "symlink" in dict)
  {
    var d := FillMetadataFromStat(dict, st);
    FilledNames(dict, st);
    FieldRoundTrip(d, "mode", st.mode);
    FieldRoundTrip(d, "size", st.size);
    FieldRoundTrip(d, "uid", st.uid);
    FieldRoundTrip(d, "gid", st.gid);
    FieldRoundTrip(d, "atime", st.atime);
    FieldRoundTrip(d, "mtime", st.mtime);
    FieldRoundTrip(d, "ctime", st.ctime);
  }

  /** A value that a 64-bit field takes after the trip. */
  function Kept(v: i64, before: i64): i64 { if v == -1 then before else v }

  /** The narrowing and widening casts undo each other on values that came from a record. */
  lemma StoredBack(st: Stat, target: Stat, link: bool)
    ensures StoreFields(target, Fields(st.size, st.mode, st.uid, st.gid, st.atime, st.ctime, st.mtime, link)) ==
            Stat(if link then OrLink(st.mode) else st.mode,
                 Kept(st.size, target.size), st.uid, st.gid,
                 Kept(st.atime, target.atime), Kept(st.mtime, target.mtime), Kept(st.ctime, target.ctime))
  {
    assert ToU32(st.mode) == st.mode && ToU32(st.uid) == st.uid && ToU32(st.gid) == st.gid;
    assert ToLongLong(ToULong(st.size)) == st.size;
  }

  /**
   Every stat value written into any dictionary and read back over any record: 32-bit fields
   come back unchanged, and a 64-bit field comes back unless it is -1, which reads as absent.
   */
  lemma StatRoundTrip(dict: Dict, st: Stat, target: Stat)
    ensures StatFromMetadata(target, FillMetadataFromStat(dict, st)) ==
            Stat(if "symlink" in dict then OrLink(st.mode) else st.mode,
                 Kept(st.size, target.size), st.uid, st.gid,
                 Kept(st.atime, target.atime), Kept(st.mtime, target.mtime), Kept(st.ctime, target.ctime))
  {
    FieldsRoundTrip(dict, st);
    StoredBack(st, target, "symlink" in dict);
  }

  /**
   The object of a symbolic link carries its target and its size, and nothing else: the size and
   the two bits of the file type come from it, every other field is that of the record before.
   */
  lemma SymlinkStat(dict: Dict, target: Stat, size: nat)
    requires dict.Keys == {"symlink", "size"} && dict["size"] == ToText(size) && size < TWO63
    ensures StatFromMetadata(target, dict) == target.(size := size, mode := OrLink(target.mode))
  {
    TextRoundTrip(size);
    assert |"mode"| == 4 && |"uid"| == 3 && |"gid"| == 3 && |"size"| == 4 && |"symlink"| == 7;
    assert |"atime"| == 5 && |"mtime"| == 5 && |"ctime"| == 5 && "mode"[0] != "size"[0];
    assert ReadFields(dict) == Fields(size, -1, -1, -1, -1, -1, -1, true);
  }

  /** The trip restores the record, over every possible target, exactly when no 64-bit field is -1. */
  lemma StatRestoredIff(dict: Dict, st: Stat)
    requires "symlink" !in dict
    ensures (forall target: Stat :: StatFromMetadata(target, FillMetadataFromStat(dict, st)) == st)
            <==> st.size != -1 && st.atime != -1 && st.mtime != -1 && st.ctime != -1
  {
    forall target: Stat
      ensures StatFromMetadata(target, FillMetadataFromStat(dict, st)) ==
              Stat(st.mode, Kept(st.size, target.size), st.uid, st.gid,
                   Kept(st.atime, target.atime), Kept(st.mtime, target.mtime), Kept(st.ctime, target.ctime))
    {
      StatRoundTrip(dict, st, target);
    }
    var zero := Stat(0, 0, 0, 0, 0, 0, 0);
    assert StatFromMetadata(zero, FillMetadataFromStat(dict, st)).size == Kept(st.size, 0);
  }

  /** The record that the source fills in place. */
  class StatBuf {
    var mode: u32
    var size: i64
    var uid: u32
    var gid: u32
    var atime: i64
    var mtime: i64
    var ctime: i64

    function Value(): Stat
      reads this
    {
      Stat(mode, size, uid, gid, atime, mtime, ctime)
    }

    constructor (st: Stat)
      ensures Value() == st
    {
      mode, size, uid, gid := st.mode, st.size, st.uid, st.gid;
      atime, mtime, ctime := st.atime, st.mtime, st.ctime;
    }

    /** fill_stat_from_metadata */
    method FillFromMetadata(dict: Dict)
      modifies this
      ensures Value() == StatFromMetadata(old(Value()), dict)
    {
      Store(ReadFields(dict));
    }

    /** The stores of STORE_META, field by field in the order of the source. */
    method Store(f: Fields)
      modifies this
      ensures Value() == StoreFields(old(Value()), f)
    {
      ghost var want := StoreFields(Value(), f);
      if f.size != -1 { size := ToLongLong(ToULong(f.size)); }
      if f.mode != -1 { mode := ToU32(f.mode); }
      if f.uid != -1 { uid := ToU32(f.uid); }
      if f.gid != -1 { gid := ToU32(f.gid); }
      if f.atime != -1 { atime := f.atime; }
      if f.ctime != -1 { ctime := f.ctime; }
      if f.mtime != -1 { mtime := f.mtime; }
      if f.link { mode := OrLink(mode); }
      assert size == want.size && atime == want.atime && mtime == want.mtime && ctime == want.ctime;
      assert mode == want.mode && uid == want.uid && gid == want.gid;
    }
  }
}
