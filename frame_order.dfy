/** Ordering of the raw frame images before conversion.

    The decoder writes one image per video frame, named with a fixed
    6-character prefix, the frame number in decimal and a 4-character
    extension (for instance "frame_12.png"). The player sorts the files by
    the number between prefix and extension, read with `Convert.ToInt32`,
    using LINQ's stable `OrderBy`.
 */
module FrameOrder {

  /** Why the sort key of a file name could not be read; each is an exception in the player. */
  datatype KeyError =
    | NameTooShort  // the range [6, length - 4) does not fit in the name
    | NotANumber    // the text between prefix and extension is not a decimal numeral
    | Overflow      // the numeral is larger than Int32.MaxValue

  datatype Result<T> = Ok(value: T) | Err(error: KeyError)

  datatype Option<T> = None | Some(value: T)

  /** A file in the raw-frames directory: its bare name and its full path. */
  datatype FrameFile = FrameFile(name: string, fullName: string)

  const PrefixLength: nat := 6
  const ExtensionLength: nat := 4
  const Int32Max: int := 0x7FFF_FFFF

  /** `name[6 .. name.Length - 4]`: the frame number's text. */
  function IndexText(name: string): (r: Result<string>)
    ensures r.Ok? <==> |name| >= PrefixLength + ExtensionLength
    ensures r.Err? ==> r.error == NameTooShort
    ensures r.Ok? ==>
      |r.value| == |name| - PrefixLength - ExtensionLength &&
      name == name[..PrefixLength] + r.value + name[|name| - ExtensionLength..]
  {
    if |name| < PrefixLength + ExtensionLength then Err(NameTooShort)
    else Ok(name[PrefixLength..|name| - ExtensionLength])
  }

  predicate IsDigit(c: char) {
    '0' <= c <= '9'
  }

  predicate AllDigits(s: string) {
    forall i :: 0 <= i < |s| ==> IsDigit(s[i])
  }

  /** The value of a decimal numeral, most significant digit first. */
  function DigitsValue(s: string): nat
    requires AllDigits(s)
    decreases |s|
  {
    if s == [] then 0
    else DigitsValue(s[..|s| - 1]) * 10 + (s[|s| - 1] as int - '0' as int)
  }

  /** The shortest decimal numeral of `n`. */
  function Decimal(n: nat): (s: string)
    ensures AllDigits(s) && |s| > 0
    ensures n >= 10 ==> s[0] != '0'
    decreases n
  {
    if n < 10 then [('0' as int + n) as char]
    else Decimal(n / 10) + [('0' as int + n % 10) as char]
  }

  /** Reading back a numeral written by `Decimal` gives the number. */
  lemma {:induction false} DecimalRoundTrip(n: nat)
    ensures DigitsValue(Decimal(n)) == n
    decreases n
  {
    var s := Decimal(n);
    if n >= 10 {
      DecimalRoundTrip(n / 10);
      assert s[..|s| - 1] == Decimal(n / 10);
    }
  }

  /** Leading zeros do not change the value of a numeral. */
  lemma {:induction false} LeadingZero(s: string)
    requires AllDigits(s)
    ensures AllDigits("0" + s) && DigitsValue("0" + s) == DigitsValue(s)
    decreases |s|
  {
    if s != [] {
      var t := "0" + s;
      assert t[..|t| - 1] == "0" + s[..|s| - 1];
      LeadingZero(s[..|s| - 1]);
    }
  }

  /** `Convert.ToInt32` on an unsigned decimal numeral. */
  function ParseInt32(s: string): (r: Result<int>)
    ensures r.Ok? <==> s != [] && AllDigits(s) && DigitsValue(s) <= Int32Max
    ensures r.Ok? ==> 0 <= r.value <= Int32Max && r.value == DigitsValue(s)
    ensures r == Err(Overflow) <==> s != [] && AllDigits(s) && DigitsValue(s) > Int32Max
    ensures r == Err(NotANumber) <==> s == [] || !AllDigits(s)
  {
    if s == [] || !AllDigits(s) then Err(NotANumber)
    else if DigitsValue(s) > Int32Max then Err(Overflow)
    else Ok(DigitsValue(s))
  }

  /** The sort key of a frame file name: the number between prefix and extension. */
  function FrameKey(name: string): (r: Result<int>)
    ensures r.Ok? ==> 0 <= r.value <= Int32Max
    ensures |name| < PrefixLength + ExtensionLength ==> r == Err(NameTooShort)
    ensures r.Ok? <==> (|name| >= PrefixLength + ExtensionLength &&
      var t := name[PrefixLength..|name| - ExtensionLength];
      t != [] && AllDigits(t) && DigitsValue(t) <= Int32Max)
  {
    match IndexText(name)
    case Err(e) => Err(e)
    case Ok(t) => ParseInt32(t)
  }

  /** Every frame number up to Int32.MaxValue, written after any 6-character prefix and
      before any 4-character extension, is read back as the sort key. */
  lemma FrameKeyOfNumberedName(prefix: string, n: nat, extension: string)
    requires |prefix| == PrefixLength && |extension| == ExtensionLength
    requires n <= Int32Max
    ensures FrameKey(prefix + Decimal(n) + extension) == Ok(n)
  {
    var name := prefix + Decimal(n) + extension;
    assert name[PrefixLength..|name| - ExtensionLength] == Decimal(n);
    DecimalRoundTrip(n);
  }

  /** The key the files are ordered by; only consulted once every key has been read. */
  function FileKey(f: FrameFile): int
  {
    match FrameKey(f.name)
    case Ok(k) => k
    case Err(_) => 0
  }

  /** The error of the first file, in enumeration order, whose key cannot be read. */
  function FirstKeyError(files: seq<FrameFile>): (r: Option<KeyError>)
    ensures r.None? <==> forall i :: 0 <= i < |files| ==> FrameKey(files[i].name).Ok?
    decreases |files|
  {
    if files == [] then None
    else match FrameKey(files[0].name)
      case Err(e) => Some(e)
      case Ok(_) => FirstKeyError(files[1..])
  }

  /** The error reported is that of a file whose key fails, and every earlier file's
      key is read. */
  lemma {:induction false} FirstKeyErrorIsFirst(files: seq<FrameFile>)
    ensures var r := FirstKeyError(files);
      r.Some? ==> exists i :: (0 <= i < |files| && FrameKey(files[i].name) == Err(r.value) &&
        forall j :: 0 <= j < i ==> FrameKey(files[j].name).Ok?)
    decreases |files|
  {
    if files != [] && FrameKey(files[0].name).Ok? {
      var rest := files[1..];
      FirstKeyErrorIsFirst(rest);
      if FirstKeyError(rest).Some? {
        var i :| 0 <= i < |rest| && FrameKey(rest[i].name) == Err(FirstKeyError(rest).value) &&
          forall j :: 0 <= j < i ==> FrameKey(rest[j].name).Ok?;
        assert files[i + 1] == rest[i];
        assert forall j :: 1 <= j < i + 1 ==> files[j] == rest[j - 1];
      }
    }
  }

  predicate SortedBy<T>(s: seq<T>, key: T -> int) {
    forall i, j :: 0 <= i < j < |s| ==> key(s[i]) <= key(s[j])
  }

  /** The elements of `s` whose key is `k`, in their order in `s`. */
  function WithKey<T>(s: seq<T>, key: T -> int, k: int): (r: seq<T>)
    ensures forall i :: 0 <= i < |r| ==> key(r[i]) == k
    decreases |s|
  {
    if s == [] then []
    else if key(s[0]) == k then [s[0]] + WithKey(s[1..], key, k)
    else WithKey(s[1..], key, k)
  }

  lemma SortedCons<T>(y: T, t: seq<T>, key: T -> int)
    requires SortedBy(t, key)
    requires t != [] ==> key(y) <= key(t[0])
    ensures SortedBy([y] + t, key)
  {
  }

  /** Inserts `x` before the first element whose key is not smaller. */
  function Insert<T>(x: T, s: seq<T>, key: T -> int): (r: seq<T>)
    ensures |r| == |s| + 1
    ensures r[0] == x || (s != [] && r[0] == s[0])
    decreases |s|
  {
    if s == [] || key(x) <= key(s[0]) then [x] + s
    else [s[0]] + Insert(x, s[1..], key)
  }

  lemma {:induction false} InsertPermutes<T>(x: T, s: seq<T>, key: T -> int)
    ensures multiset(Insert(x, s, key)) == multiset(s) + multiset{x}
    decreases |s|
  {
    if s != [] && key(x) > key(s[0]) {
      InsertPermutes(x, s[1..], key);
      assert s == [s[0]] + s[1..];
    }
  }

  lemma {:induction false} InsertSorted<T>(x: T, s: seq<T>, key: T -> int)
    requires SortedBy(s, key)
    ensures SortedBy(Insert(x, s, key), key)
    decreases |s|
  {
    if s != [] && key(x) > key(s[0]) {
      var t := s[1..];
      assert SortedBy(t, key) by {
        forall i, j | 0 <= i < j < |t| ensures key(t[i]) <= key(t[j]) {
          assert t[i] == s[i + 1] && t[j] == s[j + 1];
        }
      }
      InsertSorted(x, t, key);
      var rest := Insert(x, t, key);
      assert rest[0] == x || rest[0] == s[1];
      SortedCons(s[0], rest, key);
    } else {
      SortedCons(x, s, key);
    }
  }

  /** LINQ's `OrderBy`: a stable sort by key. */
  function SortBy<T>(s: seq<T>, key: T -> int): (r: seq<T>)
    ensures |r| == |s|
    decreases |s|
  {
    if s == [] then []
    else Insert(s[0], SortBy(s[1..], key), key)
  }

  /** The sort puts the elements in ascending key order and keeps every element
      as often as it occurs. */
  lemma {:induction false} SortBySortedPermutes<T>(s: seq<T>, key: T -> int)
    ensures SortedBy(SortBy(s, key), key)
    ensures multiset(SortBy(s, key)) == multiset(s)
    decreases |s|
  {
    if s != [] {
      SortBySortedPermutes(s[1..], key);
      InsertSorted(s[0], SortBy(s[1..], key), key);
      InsertPermutes(s[0], SortBy(s[1..], key), key);
      assert s == [s[0]] + s[1..];
    }
  }

  lemma {:induction false} InsertWithKey<T>(x: T, s: seq<T>, key: T -> int, k: int)
    ensures WithKey(Insert(x, s, key), key, k) ==
            (if key(x) == k then [x] else []) + WithKey(s, key, k)
    decreases |s|
  {
    if s != [] && key(x) > key(s[0]) {
      InsertWithKey(x, s[1..], key, k);
      var r := Insert(x, s, key);
      assert r[0] == s[0] && r[1..] == Insert(x, s[1..], key);
    } else {
      var r := Insert(x, s, key);
      assert r[0] == x && r[1..] == s;
    }
  }

  /** Stability: among elements with equal keys the sort keeps the input order. */
  lemma {:induction false} SortByStable<T>(s: seq<T>, key: T -> int, k: int)
    ensures WithKey(SortBy(s, key), key, k) == WithKey(s, key, k)
    decreases |s|
  {
    if s != [] {
      SortByStable(s[1..], key, k);
      InsertWithKey(s[0], SortBy(s[1..], key), key, k);
    }
  }

  /** The frame files in playback order, or the error that `OrderBy` raises while
      reading the keys. */
  function OrderFiles(files: seq<FrameFile>): (r: Result<seq<FrameFile>>)
    ensures r.Ok? <==> forall i :: 0 <= i < |files| ==> FrameKey(files[i].name).Ok?
    ensures r.Ok? ==> |r.value| == |files|
  {
    match FirstKeyError(files)
    case Some(e) => Err(e)
    case None => Ok(SortBy(files, FileKey))
  }

  /** What ordering promises: the same files, ascending by frame number read as an
      integer, with files of equal number in enumeration order; an error names a
      file whose key cannot be read and no earlier file fails. */
  lemma OrderFilesSpec(files: seq<FrameFile>)
    ensures var r := OrderFiles(files);
      r.Ok? ==>
        multiset(r.value) == multiset(files) &&
        (forall i :: 0 <= i < |r.value| ==> FrameKey(r.value[i].name).Ok?) &&
        (forall i, j :: 0 <= i < j < |r.value| ==>
           FrameKey(r.value[i].name).value <= FrameKey(r.value[j].name).value) &&
        (forall k :: WithKey(r.value, FileKey, k) == WithKey(files, FileKey, k))
    ensures var r := OrderFiles(files);
      r.Err? ==> exists i :: (0 <= i < |files| && FrameKey(files[i].name) == Err(r.error) &&
        forall j :: 0 <= j < i ==> FrameKey(files[j].name).Ok?)
  {
    var r := OrderFiles(files);
    FirstKeyErrorIsFirst(files);
    if r.Ok? {
      SortBySortedPermutes(files, FileKey);
      forall k ensures WithKey(r.value, FileKey, k) == WithKey(files, FileKey, k) {
        SortByStable(files, FileKey, k);
      }
      forall i | 0 <= i < |r.value| ensures FrameKey(r.value[i].name).Ok? {
        assert r.value[i] in multiset(files);
      }
    }
  }

  lemma KeyOfFrame2()
    ensures FrameKey("frame_2.png") == Ok(2)
  {
  }

  lemma KeyOfFrame10()
    ensures FrameKey("frame_10.png") == Ok(10)
  {
    assert "frame_10.png"[6..8] == "10";
    assert "10"[..1] == "1" && "1"[..0] == [];
  }

  /** Frame 10 follows frame 2, although "frame_10.png" sorts first as text. */
  lemma NumericNotLexical()
    ensures "frame_10.png"[6] < "frame_2.png"[6]
    ensures var f2, f10 := FrameFile("frame_2.png", "/raw_frames/frame_2.png"),
                           FrameFile("frame_10.png", "/raw_frames/frame_10.png");
      OrderFiles([f10, f2]) == Ok([f2, f10])
  {
    var f2, f10 := FrameFile("frame_2.png", "/raw_frames/frame_2.png"),
                   FrameFile("frame_10.png", "/raw_frames/frame_10.png");
    KeyOfFrame2();
    KeyOfFrame10();
    assert FileKey(f2) == 2 && FileKey(f10) == 10;
    assert [f10, f2][1..] == [f2] && [f2][1..] == [];
    assert FirstKeyError([f2]) == None;
    assert FirstKeyError([f10, f2]) == None;
    assert SortBy([f2], FileKey) == [f2];
    assert Insert(f10, [f2], FileKey) == [f2, f10];
    assert SortBy([f10, f2], FileKey) == [f2, f10];
  }
}
