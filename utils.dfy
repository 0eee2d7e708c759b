/** String, filename and integer helpers of src/lib/utils.ts. The clock
    (`Date.now()`, `new Date()`) is a parameter of each operation that reads it. */
module Utils {
  import opened Text

  // ---------------------------------------------------------------------------
  // MIME-type predicates
  // ---------------------------------------------------------------------------

  const IMAGE_TYPES: seq<string> :=
    ["image/jpeg", "image/png", "image/webp", "image/gif", "image/bmp", "image/tiff", "image/svg+xml"]

  const UPLOAD_TYPES: seq<string> := ["image/jpeg", "image/png"]

  /** `isValidImageType(file)`, on `file.type`: membership in the seven types
      listed there. Every one of them is an `image/` MIME type. */
  function IsValidImageType(fileType: string): (ok: bool)
    ensures ok <==>
      || fileType == "image/jpeg" || fileType == "image/png" || fileType == "image/webp"
      || fileType == "image/gif" || fileType == "image/bmp" || fileType == "image/tiff"
      || fileType == "image/svg+xml"
    ensures ok ==> |fileType| > 6 && fileType[..6] == "image/"
  {
    fileType in IMAGE_TYPES
  }

  /** `isValidUploadType(file)`, on `file.type`: exactly JPEG and PNG, both of
      which are image types. */
  function IsValidUploadType(fileType: string): (ok: bool)
    ensures ok <==> fileType == "image/jpeg" || fileType == "image/png"
    ensures ok ==> IsValidImageType(fileType)
  {
    fileType in UPLOAD_TYPES
  }

  /** The upload check is strictly narrower than the image check. */
  lemma UploadTypes()
    ensures forall fileType :: IsValidUploadType(fileType) ==> IsValidImageType(fileType)
    ensures IsValidImageType("image/webp") && !IsValidUploadType("image/webp")
    ensures IsValidImageType("image/svg+xml") && !IsValidUploadType("image/svg+xml")
  {
  }

  // ---------------------------------------------------------------------------
  // file names
  // ---------------------------------------------------------------------------

  /** `getFileExtension(filename)`: the last `.`-separated part, lowercased. */
  function GetFileExtension(filename: string): (ext: string)
    ensures ext == Lower(filename[LastIndexOf(filename, '.') + 1..])
    ensures '.' !in ext
  {
    var parts := Split(filename, '.');
    var extension := parts[|parts| - 1];
    var tail := filename[LastIndexOf(filename, '.') + 1..];
    LowerAbsent(tail, '.');
    SplitLastPart(filename, '.');
    assert extension == tail;
    Lower(extension)
  }

  /** `name.replace(/[^a-zA-Z0-9]/g, '_')`. */
  function Sanitize(name: string): (r: string)
    ensures |r| == |name|
    ensures forall k :: 0 <= k < |name| ==> r[k] == if IsAsciiAlnum(name[k]) then name[k] else '_'
  {
    if name == [] then [] else [if IsAsciiAlnum(name[0]) then name[0] else '_'] + Sanitize(name[1..])
  }

  /** `generateUniqueFilename(originalName)`, with `Date.now()` as `timestamp`. */
  function GenerateUniqueFilename(originalName: string, timestamp: nat): (r: string)
    ensures var dot := LastIndexOf(originalName, '.');
      var base := if dot < 0 then "" else originalName[..dot];
      r == Sanitize(base) + "_" + NatToString(timestamp) + "." + GetFileExtension(originalName)
  {
    var extension := GetFileExtension(originalName);
    var nameWithoutExt := Substring(originalName, 0, LastIndexOf(originalName, '.'));
    var sanitizedName := Sanitize(nameWithoutExt);
    sanitizedName + "_" + NatToString(timestamp) + "." + extension
  }

  lemma LowerIdempotent(s: string)
    ensures Lower(Lower(s)) == Lower(s)
  {
  }

  /** The extension of `head.ext` is `ext` lowercased when `ext` has no `.`. */
  lemma ExtensionAfterLastDot(head: string, ext: string)
    requires '.' !in ext
    ensures GetFileExtension(head + "." + ext) == Lower(ext)
  {
    var s := head + "." + ext;
    assert s[|head| + 1..] == ext;
    LastIndexOfAt(s, '.', |head|);
  }

  /** The unique name keeps the original extension, lowercased. */
  lemma UniqueFilenameKeepsExtension(originalName: string, timestamp: nat)
    ensures GetFileExtension(GenerateUniqueFilename(originalName, timestamp)) == GetFileExtension(originalName)
  {
    var dot := LastIndexOf(originalName, '.');
    var base := if dot < 0 then "" else originalName[..dot];
    var ext := GetFileExtension(originalName);
    var head := Sanitize(base) + "_" + NatToString(timestamp);
    UniqueFilenameShape(originalName, timestamp);
    assert GenerateUniqueFilename(originalName, timestamp) == head + "." + ext;
    ExtensionAfterLastDot(head, ext);
    LowerIdempotent(originalName[dot + 1..]);
  }

  /** A name without `.` has an empty base: the result is `_<ts>.<name lowercased>`. */
  lemma UniqueFilenameWithoutDot(originalName: string, timestamp: nat)
    requires '.' !in originalName
    ensures GenerateUniqueFilename(originalName, timestamp)
         == "_" + NatToString(timestamp) + "." + Lower(originalName)
  {
    assert originalName[0..] == originalName;
    assert Sanitize("") == "";
    var r := GenerateUniqueFilename(originalName, timestamp);
    assert r == "" + "_" + NatToString(timestamp) + "." + Lower(originalName);
  }

  /** The base before the timestamp is the sanitized text before the last `.`
      (so it keeps its length and case), followed by `_`. */
  lemma UniqueFilenameBase(originalName: string, timestamp: nat)
    requires '.' in originalName
    ensures var dot := LastIndexOf(originalName, '.');
      var r := GenerateUniqueFilename(originalName, timestamp);
      |r| > dot && r[..dot] == Sanitize(originalName[..dot]) && r[dot] == '_'
  {
    var dot := LastIndexOf(originalName, '.');
    var base := originalName[..dot];
    var r := GenerateUniqueFilename(originalName, timestamp);
    UniqueFilenameShape(originalName, timestamp);
    var s := Sanitize(base);
    assert |s| == dot;
    PrefixThenUnderscore(s, NatToString(timestamp), "." + GetFileExtension(originalName));
  }

  lemma PrefixThenUnderscore(s: string, n: string, e: string)
    ensures var r := (s + "_") + n + e;
      |r| > |s| && r[..|s|] == s && r[|s|] == '_'
  {
    var r := (s + "_") + n + e;
    assert r[..|s|] == (s + "_")[..|s|];
  }

  /** The three pieces of a unique name: sanitized base and `_`, timestamp, and
      `.` with the extension. */
  lemma UniqueFilenameShape(originalName: string, timestamp: nat)
    ensures var dot := LastIndexOf(originalName, '.');
      var base := if dot < 0 then "" else originalName[..dot];
      GenerateUniqueFilename(originalName, timestamp)
        == (Sanitize(base) + "_") + NatToString(timestamp) + ("." + GetFileExtension(originalName))
  {
  }

  lemma MiddleCancel(pre: string, post: string, a: string, b: string)
    requires pre + a + post == pre + b + post
    ensures a == b
  {
    var r := pre + a + post;
    assert a == r[|pre|..|r| - |post|];
    assert b == r[|pre|..|r| - |post|];
  }

  /** Two calls with different timestamps never produce the same name. */
  lemma UniqueFilenameInjective(originalName: string, t1: nat, t2: nat)
    requires GenerateUniqueFilename(originalName, t1) == GenerateUniqueFilename(originalName, t2)
    ensures t1 == t2
  {
    var dot := LastIndexOf(originalName, '.');
    var base := if dot < 0 then "" else originalName[..dot];
    var pre := Sanitize(base) + "_";
    var post := "." + GetFileExtension(originalName);
    UniqueFilenameShape(originalName, t1);
    UniqueFilenameShape(originalName, t2);
    MiddleCancel(pre, post, NatToString(t1), NatToString(t2));
    NatToStringInjective(t1, t2);
  }

  // ---------------------------------------------------------------------------
  // initials
  // ---------------------------------------------------------------------------

  /** `words.map(word => word.charAt(0)).join('')`: the first character of each
      word, nothing for an empty word. */
  function FirstChars(words: seq<string>): string
  {
    if words == [] then ""
    else (if words[0] == "" then "" else [words[0][0]]) + FirstChars(words[1..])
  }

  /** Reference definition: the non-space characters of `s` that stand at the
      start of `s` (when `atStart`) or right after a space. */
  function WordStarts(s: string, atStart: bool): string
  {
    if s == [] then ""
    else (if atStart && s[0] != ' ' then [s[0]] else "") + WordStarts(s[1..], s[0] == ' ')
  }

  /** `getInitials(name)`. */
  function GetInitials(name: string): (r: string)
    ensures |r| <= 2
    ensures forall k :: 0 <= k < |r| ==> !('a' <= r[k] <= 'z')
  {
    var letters := Upper(FirstChars(Split(name, ' ')));
    if |letters| <= 2 then letters else letters[..2]
  }

  lemma {:induction false} FirstCharsSplit(s: string, atStart: bool)
    ensures var parts := Split(s, ' ');
      WordStarts(s, atStart)
        == (if atStart && parts[0] != "" then [parts[0][0]] else "") + FirstChars(parts[1..])
  {
    if s != [] {
      var rest := Split(s[1..], ' ');
      var parts := Split(s, ' ');
      if s[0] == ' ' {
        FirstCharsSplit(s[1..], true);
        assert parts == [""] + rest;
        assert parts[1..] == rest;
        assert WordStarts(s, atStart) == WordStarts(s[1..], true);
        assert FirstChars(rest) == (if rest[0] != "" then [rest[0][0]] else "") + FirstChars(rest[1..]);
      } else {
        FirstCharsSplit(s[1..], false);
        assert parts == [[s[0]] + rest[0]] + rest[1..];
        assert parts[1..] == rest[1..];
        assert parts[0][0] == s[0];
        assert WordStarts(s, atStart) == (if atStart then [s[0]] else "") + WordStarts(s[1..], false);
      }
    }
  }

  /** The initials are the first two word-start characters, uppercased, in order. */
  lemma GetInitialsAreWordStarts(name: string)
    ensures var starts := Upper(WordStarts(name, true));
      GetInitials(name) == if |starts| <= 2 then starts else starts[..2]
  {
    FirstCharsSplit(name, true);
    var parts := Split(name, ' ');
    assert FirstChars(parts) == (if parts[0] != "" then [parts[0][0]] else "") + FirstChars(parts[1..]);
  }

  // ---------------------------------------------------------------------------
  // colour from a string
  // ---------------------------------------------------------------------------

  const PALETTE: seq<string> := [
    "#ef4444", "#f97316", "#f59e0b", "#eab308", "#84cc16",
    "#22c55e", "#10b981", "#14b8a6", "#06b6d4", "#0ea5e9",
    "#3b82f6", "#6366f1", "#8b5cf6", "#a855f7", "#d946ef",
    "#ec4899", "#f43f5e"
  ]

  const TWO_32: int := 0x1_0000_0000
  const TWO_31: int := 0x8000_0000

  /** ECMAScript ToInt32 on an integral number: reduce modulo 2^32 into
      [-2^31, 2^31). */
  function ToInt32(x: int): (r: int)
    ensures -TWO_31 <= r < TWO_31
    ensures (r - x) % TWO_32 == 0
  {
    var m := x % TWO_32;
    if m >= TWO_31 then m - TWO_32 else m
  }

  /** One iteration: `hash = code + ((hash << 5) - hash)`. `<<` works on 32 bits
      (`hash << 5` is ToInt32(hash * 32)); the subtraction and addition are exact
      (the running hash is an integral double, not an int32). */
  function HashStep(hash: int, ch: char): int
  {
    ch as int + (ToInt32(hash * 32) - hash)
  }

  /** The hash of `s`, folding HashStep from the left over its characters. */
  function Hash(s: string): (h: int)
    ensures s == [] ==> h == 0
    ensures -|s| * 0x8011_0000 <= h <= |s| * 0x8011_0000
  {
    if s == [] then 0
    else
      var prev := Hash(s[..|s| - 1]);
      HashStepBound(prev, s[|s| - 1], |s| - 1);
      HashStep(prev, s[|s| - 1])
  }

  /** One step moves the hash by at most 2^31 + 0x110000 (a `char` is below 0x110000). */
  lemma HashStepBound(hash: int, ch: char, n: int)
    requires 0 <= n
    requires -n * 0x8011_0000 <= hash <= n * 0x8011_0000
    ensures -(n + 1) * 0x8011_0000 <= HashStep(hash, ch) <= (n + 1) * 0x8011_0000
  {
    var shifted := ToInt32(hash * 32);
    assert -TWO_31 <= shifted < TWO_31;
    assert 0 <= ch as int < 0x11_0000;
    assert HashStep(hash, ch) == ch as int + (shifted - hash);
  }

  /** The palette entry `generateColorFromString` picks for `s`. */
  function ColorOf(s: string): (color: string)
    ensures color in PALETTE
  {
    var h := Hash(s);
    PALETTE[(if h < 0 then -h else h) % |PALETTE|]
  }

  /** Hashing one more character of `str` is one more HashStep. */
  lemma HashPrefix(str: string, i: nat)
    requires i < |str|
    ensures Hash(str[..i + 1]) == HashStep(Hash(str[..i]), str[i])
  {
    assert str[..i + 1][..i] == str[..i];
  }

  /** `generateColorFromString(str)`: the loop of the source over `str`. */
  method GenerateColorFromString(str: string) returns (color: string)
    ensures color == ColorOf(str)
    ensures color in PALETTE
  {
    var hash := 0;
    var i := 0;
    while i < |str|
      invariant 0 <= i <= |str|
      invariant hash == Hash(str[..i])
    {
      HashPrefix(str, i);
      hash := HashStep(hash, str[i]);
      i := i + 1;
    }
    assert str[..i] == str;
    var abs := if hash < 0 then -hash else hash;
    color := PALETTE[abs % |PALETTE|];
    assert color == ColorOf(str);
  }

  lemma ColorExamples()
    ensures ColorOf("") == "#ef4444"
    ensures Hash("a") == 97 && ColorOf("a") == "#8b5cf6"
  {
    assert Hash("") == 0;
    assert ColorOf("") == PALETTE[0];
    assert "a"[..0] == "";
    assert ToInt32(0) == 0;
    assert Hash("a") == HashStep(0, 'a') == 97;
    assert ColorOf("a") == PALETTE[97 % 17] == PALETTE[12];
  }

  /** Every colour is a CSS hex colour: `#` and six digits. */
  lemma ColorShape(s: string)
    ensures |ColorOf(s)| == 7 && ColorOf(s)[0] == '#'
  {
  }

  // ---------------------------------------------------------------------------
  // relative dates
  // ---------------------------------------------------------------------------

  datatype RelativeDate = JustNow | MinutesAgo(minutes: nat) | HoursAgo(hours: nat) | DaysAgo(days: nat) | AbsoluteDate

  /** The bucket `formatRelativeDate` picks for `diffInSeconds`. */
  function Bucket(diffInSeconds: int): (b: RelativeDate)
    ensures b == JustNow <==> diffInSeconds < 60
    ensures b.MinutesAgo? <==> 60 <= diffInSeconds < 3600
    ensures b.HoursAgo? <==> 3600 <= diffInSeconds < 86400
    ensures b.DaysAgo? <==> 86400 <= diffInSeconds < 2592000
    ensures b == AbsoluteDate <==> diffInSeconds >= 2592000
    ensures b.MinutesAgo? ==> 1 <= b.minutes < 60 && b.minutes * 60 <= diffInSeconds < (b.minutes + 1) * 60
    ensures b.HoursAgo? ==> 1 <= b.hours < 24 && b.hours * 3600 <= diffInSeconds < (b.hours + 1) * 3600
    ensures b.DaysAgo? ==> 1 <= b.days < 30 && b.days * 86400 <= diffInSeconds < (b.days + 1) * 86400
  {
    if diffInSeconds < 60 then JustNow
    else if diffInSeconds < 3600 then MinutesAgo(diffInSeconds / 60)
    else if diffInSeconds < 86400 then HoursAgo(diffInSeconds / 3600)
    else if diffInSeconds < 2592000 then DaysAgo(diffInSeconds / 86400)
    else AbsoluteDate
  }

  function Rank(b: RelativeDate): nat
  {
    match b
    case JustNow => 0
    case MinutesAgo(_) => 1
    case HoursAgo(_) => 2
    case DaysAgo(_) => 3
    case AbsoluteDate => 4
  }

  /** An older date never lands in a more recent bucket. */
  lemma BucketMonotonic(a: int, b: int)
    requires a <= b
    ensures Rank(Bucket(a)) <= Rank(Bucket(b))
    ensures Bucket(a).MinutesAgo? && Bucket(b).MinutesAgo? ==> Bucket(a).minutes <= Bucket(b).minutes
    ensures Bucket(a).HoursAgo? && Bucket(b).HoursAgo? ==> Bucket(a).hours <= Bucket(b).hours
    ensures Bucket(a).DaysAgo? && Bucket(b).DaysAgo? ==> Bucket(a).days <= Bucket(b).days
  {
  }

  /** `formatRelativeDate(date)`, with the current time `nowMs` and the date's
      time `dateMs` in milliseconds and `formatDate(d)` given as `formatted`.
      Dafny's `/` by a positive divisor is `Math.floor` of the quotient. */
  function FormatRelativeDate(nowMs: int, dateMs: int, formatted: string): (r: string)
    ensures var s := (nowMs - dateMs) / 1000; s < 60 ==> r == "Just now"
    ensures var s := (nowMs - dateMs) / 1000; 60 <= s < 3600 ==> r == NatToString(s / 60) + " minutes ago"
    ensures var s := (nowMs - dateMs) / 1000; 3600 <= s < 86400 ==> r == NatToString(s / 3600) + " hours ago"
    ensures var s := (nowMs - dateMs) / 1000; 86400 <= s < 2592000 ==> r == NatToString(s / 86400) + " days ago"
    ensures var s := (nowMs - dateMs) / 1000; s >= 2592000 ==> r == formatted
  {
    match Bucket((nowMs - dateMs) / 1000)
    case JustNow => "Just now"
    case MinutesAgo(n) => NatToString(n) + " minutes ago"
    case HoursAgo(n) => NatToString(n) + " hours ago"
    case DaysAgo(n) => NatToString(n) + " days ago"
    case AbsoluteDate => formatted
  }

  /** A date in the future, or less than a minute ago, is "Just now". */
  lemma FutureIsJustNow(nowMs: int, dateMs: int, formatted: string)
    requires dateMs > nowMs - 60000
    ensures FormatRelativeDate(nowMs, dateMs, formatted) == "Just now"
  {
  }

  lemma RelativeDateExample()
    ensures FormatRelativeDate(7_200_000, 0, "x") == "2 hours ago"
  {
    assert Bucket(7200) == HoursAgo(2);
    assert NatToString(2) == "2";
    assert "2" + " hours ago" == "2 hours ago";
  }

  lemma RelativeDateMinutesExample()
    ensures FormatRelativeDate(119_999, 0, "x") == "1 minutes ago"
  {
    assert Bucket(119) == MinutesAgo(1);
    assert NatToString(1) == "1";
    assert "1" + " minutes ago" == "1 minutes ago";
  }

  // ---------------------------------------------------------------------------
  // throttle
  // ---------------------------------------------------------------------------

  /** Times between invocations, counting from time 0 (the initial `lastTime`). */
  ghost predicate Spaced(times: seq<int>, wait: int)
  {
    forall k :: 0 <= k < |times| ==> times[k] - (if k == 0 then 0 else times[k - 1]) >= wait
  }

  /** Appending a time at least `wait` after the last one keeps the spacing. */
  lemma SpacedSnoc(times: seq<int>, wait: int, t: int)
    requires Spaced(times, wait)
    requires t - (if times == [] then 0 else times[|times| - 1]) >= wait
    ensures Spaced(times + [t], wait)
  {
    var ts := times + [t];
    forall k | 0 <= k < |ts|
      ensures ts[k] - (if k == 0 then 0 else ts[k - 1]) >= wait
    {
      if k < |times| {
        assert ts[k] == times[k];
        assert times[k] - (if k == 0 then 0 else times[k - 1]) >= wait;
        if k > 0 { assert ts[k - 1] == times[k - 1]; }
      } else {
        assert k == |times| && ts[k] == t;
        if k > 0 { assert ts[k - 1] == times[|times| - 1]; }
      }
    }
    assert Spaced(ts, wait);
  }

  /** The closure `throttle(func, wait)` returns: `lastTime` is its state, and
      `invocations` records the times at which it called `func`. */
  class Throttle {
    const wait: int
    var lastTime: int
    ghost var invocations: seq<int>

    ghost predicate Valid()
      reads this
    {
      && Spaced(invocations, wait)
      && (if invocations == [] then lastTime == 0 else lastTime == invocations[|invocations| - 1])
    }

    constructor (wait: int)
      ensures Valid() && this.wait == wait && lastTime == 0 && invocations == []
    {
      this.wait := wait;
      lastTime := 0;
      invocations := [];
    }

    /** One call at clock time `now`: `func` runs exactly when `now - lastTime >= wait`,
        and only then is `lastTime` moved to `now`. */
    method Call(now: int) returns (invoked: bool)
      requires Valid()
      modifies this
      ensures Valid()
      ensures invoked <==> now - old(lastTime) >= wait
      ensures invoked ==> lastTime == now && invocations == old(invocations) + [now]
      ensures !invoked ==> lastTime == old(lastTime) && invocations == old(invocations)
    {
      invoked := now - lastTime >= wait;
      if invoked {
        SpacedSnoc(invocations, wait, now);
        lastTime := now;
        invocations := invocations + [now];
      }
    }
  }
}
