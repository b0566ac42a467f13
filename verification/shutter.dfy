/** The shutter count: photo files are named `PIC` + the count zero-padded to seven digits +
    `.jpg`; the count comes from a cache, else from the count file, else from the largest
    number among the folder's photo names; taking a photo increments and caches it. File
    reads and writes become parameters and results: the count file's parsed content is an
    `Option<int>` and a folder is the sequence of its file names. */
module Shutter {
  import opened Wrappers

  const Prefix := "PIC"
  const Suffix := ".jpg"
  /** The number of digits in a photo name. */
  const Width := 7

  // ---------------------------------------------------------------------------------------
  // Decimal digits

  predicate IsDigit(c: char) {
    '0' as int <= c as int <= '9' as int
  }

  function DigitChar(d: nat): (c: char)
    requires d < 10
    ensures IsDigit(c) && c as int - '0' as int == d
  {
    ('0' as int + d) as char
  }

  function DigitOf(c: char): (d: nat)
    requires IsDigit(c)
    ensures d < 10 && DigitChar(d) == c
  {
    c as int - '0' as int
  }

  /** The number a string of digits spells, most significant first. */
  function DigitsValue(s: string): nat
    requires forall j :: 0 <= j < |s| ==> IsDigit(s[j])
  {
    if |s| == 0 then 0
    else DigitsValue(s[..|s| - 1]) * 10 + DigitOf(s[|s| - 1])
  }

  /** The decimal digits of `n`, without leading zeros ("0" for zero). */
  function Decimal(n: nat): (s: string)
    ensures 0 < |s| && forall j :: 0 <= j < |s| ==> IsDigit(s[j])
  {
    if n < 10 then [DigitChar(n)] else Decimal(n / 10) + [DigitChar(n % 10)]
  }

  function Pow10(k: nat): (p: nat)
    ensures p >= 1
  {
    if k == 0 then 1 else 10 * Pow10(k - 1)
  }

  function Zeros(k: nat): (s: string)
    ensures |s| == k && forall j :: 0 <= j < k ==> s[j] == '0'
  {
    if k == 0 then [] else Zeros(k - 1) + ['0']
  }

  /** `format(n, "0<k>d")` for a non-negative `n`: the digits of `n`, padded on the left with
      zeros to `k` characters; longer numbers are not cut. */
  function ZeroPad(n: nat, k: nat): (s: string)
    ensures |s| == if |Decimal(n)| < k then k else |Decimal(n)|
    ensures forall j :: 0 <= j < |s| ==> IsDigit(s[j])
  {
    var d := Decimal(n);
    if |d| < k then Zeros(k - |d|) + d else d
  }

  lemma {:induction false} DecimalValue(n: nat)
    ensures DigitsValue(Decimal(n)) == n
  {
    if n >= 10 {
      DecimalValue(n / 10);
      var d := Decimal(n);
      assert d[..|d| - 1] == Decimal(n / 10);
    }
  }

  lemma {:induction false} DecimalLength(n: nat, k: nat)
    requires 1 <= k && n < Pow10(k)
    ensures |Decimal(n)| <= k
  {
    if n >= 10 {
      DecimalLength(n / 10, k - 1);
    }
  }

  lemma {:induction false} LeadingZerosValue(k: nat, s: string)
    requires forall j :: 0 <= j < |s| ==> IsDigit(s[j])
    ensures DigitsValue(Zeros(k) + s) == DigitsValue(s)
    decreases |s|
  {
    var z := Zeros(k) + s;
    if |s| == 0 {
      ZerosValue(k);
      assert z == Zeros(k);
    } else {
      LeadingZerosValue(k, s[..|s| - 1]);
      assert z[..|z| - 1] == Zeros(k) + s[..|s| - 1];
    }
  }

  lemma {:induction false} ZerosValue(k: nat)
    ensures DigitsValue(Zeros(k)) == 0
  {
    if k > 0 {
      ZerosValue(k - 1);
      assert Zeros(k)[..k - 1] == Zeros(k - 1);
    }
  }

  /** Zero padding never changes the number the digits spell. */
  lemma ZeroPadValue(n: nat, k: nat)
    ensures DigitsValue(ZeroPad(n, k)) == n
  {
    DecimalValue(n);
    if |Decimal(n)| < k {
      LeadingZerosValue(k - |Decimal(n)|, Decimal(n));
    }
  }

  // ---------------------------------------------------------------------------------------
  // Photo names

  /** The photo name for count `n`: `f"PIC{n:07d}.jpg"`. A negative count keeps its sign in
      front of the padding, which then spans six digits. */
  function FileName(n: int): (s: string)
    ensures |s| >= |Prefix| + Width + |Suffix|
    ensures s[..|Prefix|] == Prefix && s[|s| - |Suffix|..] == Suffix
    ensures 0 <= n < Pow10(Width) ==> |s| == |Prefix| + Width + |Suffix|
  {
    if 0 <= n < Pow10(Width) then DecimalLength(n, Width); Prefix + ZeroPad(n, Width) + Suffix
    else if n >= 0 then Prefix + ZeroPad(n, Width) + Suffix
    else Prefix + "-" + ZeroPad(-n, Width - 1) + Suffix
  }

  /** `re.match(r"PIC(\d{7})\.jpg", name)`: the number in a photo name, when the name starts
      with one. Anything may follow. */
  function Match(name: string): (r: Option<nat>)
    ensures r.Some? ==> r.value < Pow10(Width)
  {
    if |name| >= 14 && name[..3] == Prefix && name[10..14] == Suffix && forall j :: 3 <= j < 10 ==> IsDigit(name[j]) then
      var v := DigitsValue(name[3..10]);
      DigitsBound(name[3..10]);
      Some(v)
    else None
  }

  lemma {:induction false} DigitsBound(s: string)
    requires forall j :: 0 <= j < |s| ==> IsDigit(s[j])
    ensures DigitsValue(s) < Pow10(|s|)
  {
    if |s| > 0 {
      DigitsBound(s[..|s| - 1]);
    }
  }

  /** The name of every photo numbered below ten million reads back as its number. */
  lemma FileNameRoundTrip(n: nat)
    requires n < Pow10(Width)
    ensures Match(FileName(n)) == Some(n)
  {
    DecimalLength(n, Width);
    ZeroPadValue(n, Width);
    var s := FileName(n);
    assert s[3..10] == ZeroPad(n, Width);
    assert s[..3] == Prefix && s[10..14] == Suffix;
  }

  /** From ten million on, the seven-digit pattern no longer matches the photo names, so the
      folder scan does not see them. */
  lemma LongNumbersNotMatched(n: nat)
    requires n >= Pow10(Width)
    ensures Match(FileName(n)).None?
  {
    var d := Decimal(n);
    if |d| <= Width {
      DecimalValue(n);
      DigitsBound(d);
      Pow10Monotone(|d|, Width);
      assert false;
    }
    var s := FileName(n);
    assert s[10] == d[7];
  }

  lemma {:induction false} Pow10Monotone(a: nat, b: nat)
    requires a <= b
    ensures Pow10(a) <= Pow10(b)
    decreases b
  {
    if a < b {
      Pow10Monotone(a, b - 1);
    }
  }

  /** Names of different counts below ten million are different. */
  lemma FileNamesDistinct(a: nat, b: nat)
    requires a < Pow10(Width) && b < Pow10(Width) && a != b
    ensures FileName(a) != FileName(b)
  {
    FileNameRoundTrip(a);
    FileNameRoundTrip(b);
  }

  // ---------------------------------------------------------------------------------------
  // The folder scan

  /** The largest number among the photo names of `folder`, 0 when none matches. */
  function FolderMax(folder: seq<string>): (m: nat)
    ensures forall j :: 0 <= j < |folder| && Match(folder[j]).Some? ==> Match(folder[j]).value <= m
    ensures m == 0 || exists j :: 0 <= j < |folder| && Match(folder[j]) == Some(m)
  {
    if |folder| == 0 then 0
    else
      var rest := FolderMax(folder[..|folder| - 1]);
      var last := Match(folder[|folder| - 1]);
      if last.Some? && last.value > rest then last.value else rest
  }

  /** `_get_shutter_count_from_folder`: one pass over the names, keeping the largest number
      found. */
  method ScanFolder(folder: seq<string>) returns (m: nat)
    ensures forall j :: 0 <= j < |folder| && Match(folder[j]).Some? ==> Match(folder[j]).value <= m
    ensures m == 0 || exists j :: 0 <= j < |folder| && Match(folder[j]) == Some(m)
    ensures m == FolderMax(folder)
  {
    m := 0;
    var i := 0;
    while i < |folder|
      invariant 0 <= i <= |folder|
      invariant m == FolderMax(folder[..i])
    {
      var number := Match(folder[i]);
      if number.Some? && number.value > m {
        m := number.value;
      }
      assert folder[..i + 1][..i] == folder[..i];
      i := i + 1;
    }
    assert folder[..i] == folder;
  }

  /** Adding the photo numbered `n` to a folder makes the scan report the larger of `n` and
      what it reported before. */
  lemma ScanAfterNewPhoto(folder: seq<string>, n: nat)
    requires n < Pow10(Width)
    ensures FolderMax(folder + [FileName(n)]) == if n > FolderMax(folder) then n else FolderMax(folder)
  {
    FileNameRoundTrip(n);
    assert (folder + [FileName(n)])[..|folder|] == folder;
  }

  // ---------------------------------------------------------------------------------------
  // The cached count

  /** `cached` is the count once it has been computed. */
  datatype Counter = Counter(cached: Option<int>)

  /** `get_shutter_count`: the cached count; otherwise the count file's number, or else the
      folder scan, which is then cached. */
  function ShutterCount(c: Counter, stored: Option<int>, folder: seq<string>): (r: (int, Counter))
    ensures c.cached.Some? ==> r == (c.cached.value, c)
    ensures c.cached.None? && stored.Some? ==> r.0 == stored.value
    ensures c.cached.None? && stored.None? ==> r.0 == FolderMax(folder)
    ensures r.1 == Counter(Some(r.0))
  {
    if c.cached.Some? then (c.cached.value, c)
    else
      var count := if stored.Some? then stored.value else FolderMax(folder);
      (count, Counter(Some(count)))
  }

  /** `_increment_shutter_count`: one more than the current count, written to the count file
      and cached. Returns the new count, the counter, and the count file's new content. */
  function Increment(c: Counter, stored: Option<int>, folder: seq<string>): (r: (int, Counter, int))
    ensures r.0 == ShutterCount(c, stored, folder).0 + 1
    ensures r.1 == Counter(Some(r.0)) && r.2 == r.0
  {
    var count := ShutterCount(c, stored, folder).0 + 1;
    (count, Counter(Some(count)), count)
  }

  /** Once cached, the count no longer depends on the count file or the folder, and
      consecutive photos get consecutive numbers, hence distinct names. */
  lemma ConsecutivePhotos(c: Counter, stored: Option<int>, folder: seq<string>, stored2: Option<int>, folder2: seq<string>)
    ensures var a := Increment(c, stored, folder);
      var b := Increment(a.1, stored2, folder2);
      b.0 == a.0 + 1 && (0 <= a.0 && b.0 < Pow10(Width) ==> FileName(a.0) != FileName(b.0))
  {
    var a := Increment(c, stored, folder);
    if 0 <= a.0 && a.0 + 1 < Pow10(Width) {
      FileNamesDistinct(a.0, a.0 + 1);
    }
  }

  /** Starting from an empty cache and no count file, the next photo's number is one past
      the largest in the folder, so no photo there has it; names the pattern does not match
      are skipped. */
  lemma NextPhotoIsNew(folder: seq<string>)
    ensures var n := Increment(Counter(None), None, folder).0;
      forall j :: 0 <= j < |folder| ==> Match(folder[j]) != Some(n)
  {
  }
}
