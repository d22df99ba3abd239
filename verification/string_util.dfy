/** The string helpers of StringUtil.cpp.  Characters are compared as in
    the C locale: only the ASCII letters have a case. */
module StringUtil {
  import opened Wrappers

  predicate IsUpper(c: char) {
    'A' <= c <= 'Z'
  }

  predicate IsLower(c: char) {
    'a' <= c <= 'z'
  }

  /** `tolower` in the C locale. */
  function ToLower(c: char): (r: char)
    ensures !IsUpper(r)
    ensures IsUpper(c) ==> IsLower(r)
    ensures !IsUpper(c) ==> r == c
  {
    if IsUpper(c) then (c as int - 'A' as int + 'a' as int) as char else c
  }

  /** `toupper` in the C locale. */
  function ToUpper(c: char): (r: char)
    ensures !IsLower(r)
    ensures IsLower(c) ==> IsUpper(r)
    ensures !IsLower(c) ==> r == c
  {
    if IsLower(c) then (c as int - 'a' as int + 'A' as int) as char else c
  }

  /** `std::transform` with `tolower` over a whole string. */
  function Lowercase(s: string): (r: string)
    ensures |r| == |s|
    ensures forall i :: 0 <= i < |s| ==> r[i] == ToLower(s[i])
  {
    seq(|s|, i requires 0 <= i < |s| => ToLower(s[i]))
  }

  /** `find_last_of(cs)`: the position of the last character of `s` that
      is in `cs`, if any. */
  function FindLastOf(s: string, cs: set<char>): (r: Option<nat>)
    ensures r.None? <==> forall i :: 0 <= i < |s| ==> s[i] !in cs
    ensures r.Some? ==> r.value < |s| && s[r.value] in cs
    ensures r.Some? ==> forall i :: r.value < i < |s| ==> s[i] !in cs
  {
    if s == [] then None
    else if s[|s| - 1] in cs then Some(|s| - 1)
    else
      var r := FindLastOf(s[..|s| - 1], cs);
      assert forall i :: 0 <= i < |s| - 1 ==> s[..|s| - 1][i] == s[i];
      r
  }

  /** `find_first_of(c)`: the position of the first `c` in `s`, if any. */
  function FindFirst(s: string, c: char): (r: Option<nat>)
    ensures r.None? <==> c !in s
    ensures r.Some? ==> r.value < |s| && s[r.value] == c && c !in s[..r.value]
  {
    if s == [] then None
    else if s[0] == c then Some(0)
    else
      match FindFirst(s[1..], c)
      case None => None
      case Some(p) =>
        assert s[..p + 1] == [s[0]] + s[1..][..p];
        Some(p + 1)
  }

  /** The first occurrence is unique: any position holding `c` with no `c`
      before it is what `FindFirst` returns. */
  lemma FindFirstAt(s: string, c: char, p: nat)
    requires p < |s| && s[p] == c && c !in s[..p]
    ensures FindFirst(s, c) == Some(p)
  {
    var r := FindFirst(s, c);
    assert forall k :: 0 <= k < p ==> s[..p][k] == s[k];
    assert r.value <= p ==> r.value == p;
  }

  /** `StringUtil::getExtension`: the lower-cased text after the last '.',
      or "" when there is no '.'. */
  function GetExtension(filename: string): (r: string)
    ensures '.' !in filename ==> r == ""
    ensures '.' in filename ==>
      exists p :: 0 <= p < |filename| && filename[p] == '.' &&
        '.' !in filename[p + 1..] && r == Lowercase(filename[p + 1..])
    ensures '.' !in r
    ensures forall i :: 0 <= i < |r| ==> !IsUpper(r[i])
  {
    match FindLastOf(filename, {'.'})
    case None => ""
    case Some(pos) =>
      var r := Lowercase(filename[pos + 1..]);
      assert forall i :: 0 <= i < |r| ==> r[i] == ToLower(filename[pos + 1..][i]);
      r
  }

  /** `getExtension` ignores case, so the extension tests built on it do
      too. */
  lemma GetExtensionIgnoresCase(filename: string)
    ensures GetExtension(Lowercase(filename)) == GetExtension(filename)
  {
    var lf := Lowercase(filename);
    LowercaseKeepsDots(filename);
    SameDotsSameLast(lf, filename);
    match FindLastOf(filename, {'.'})
    case None =>
    case Some(pos) =>
      LowercaseSuffix(filename, pos + 1);
      LowercaseIdempotent(filename[pos + 1..]);
  }

  /** The extension of `stem.ext` is `ext` lower-cased, whatever `stem`
      holds. */
  lemma ExtensionOfSuffix(stem: string, ext: string)
    requires '.' !in ext
    ensures GetExtension(stem + "." + ext) == Lowercase(ext)
  {
    var f := stem + "." + ext;
    assert f[|stem|] == '.';
    assert forall k :: |stem| < k < |f| ==> f[k] == ext[k - |stem| - 1];
    var p :| 0 <= p < |f| && f[p] == '.' && '.' !in f[p + 1..] && GetExtension(f) == Lowercase(f[p + 1..]);
    assert p >= |stem| ==> p == |stem|;
    assert f[|stem| + 1..] == ext;
  }

  /** Two strings with their dots in the same places have the same last
      dot. */
  lemma SameDotsSameLast(a: string, b: string)
    requires |a| == |b| && forall i :: 0 <= i < |a| ==> (a[i] == '.' <==> b[i] == '.')
    ensures FindLastOf(a, {'.'}) == FindLastOf(b, {'.'})
  {
    var ra, rb := FindLastOf(a, {'.'}), FindLastOf(b, {'.'});
    if ra.Some? && rb.Some? {
      assert b[ra.value] == '.' && a[rb.value] == '.';
    }
  }

  lemma LowercaseKeepsDots(s: string)
    ensures forall i :: 0 <= i < |s| ==> (Lowercase(s)[i] == '.' <==> s[i] == '.')
  {
  }

  lemma LowercaseSuffix(s: string, k: nat)
    requires k <= |s|
    ensures Lowercase(s)[k..] == Lowercase(s[k..])
  {
  }

  lemma LowercaseIdempotent(s: string)
    ensures Lowercase(Lowercase(s)) == Lowercase(s)
  {
  }

  /** `StringUtil::stripQuotes`: removes one pair of enclosing double
      quotes.  On an empty string the first test reads the terminating NUL
      and fails; a lone `"` is both first and last character and becomes
      the empty string. */
  function StripQuotes(s: string): (r: string)
    ensures |s| >= 2 && s[0] == '"' && s[|s| - 1] == '"' ==> r == s[1..|s| - 1]
    ensures s == "\"" ==> r == ""
    ensures !(|s| >= 1 && s[0] == '"' && s[|s| - 1] == '"') ==> r == s
    ensures |r| <= |s|
  {
    if |s| >= 1 && s[0] == '"' && s[|s| - 1] == '"' then
      if |s| == 1 then "" else s[1..|s| - 1]
    else s
  }

  function Quote(s: string): string {
    "\"" + s + "\""
  }

  /** Quoting and then stripping gives the text back, and only one layer
      of quotes is removed. */
  lemma StripQuotesOfQuote(s: string)
    ensures StripQuotes(Quote(s)) == s
    ensures StripQuotes(Quote(Quote(s))) == Quote(s)
  {
    assert Quote(s)[1..|Quote(s)| - 1] == s;
    assert Quote(Quote(s))[1..|Quote(Quote(s))| - 1] == Quote(s);
  }

  /** The length of the C string held in `buf`: the characters before the
      first NUL. */
  function StrLen(buf: string): (n: nat)
    requires '\0' in buf
    ensures n < |buf| && buf[n] == '\0' && '\0' !in buf[..n]
  {
    FindFirst(buf, '\0').value
  }

  /** `StringUtil::toString(const char*, size_t)`: at most `len` characters
      of the C string in `buf`. */
  function ToString(buf: string, len: nat): (r: string)
    requires '\0' in buf
    ensures |r| <= len && '\0' !in r
    ensures r <= buf
    ensures |r| == len || buf[|r|] == '\0'
  {
    var n := StrLen(buf);
    if n < len then buf[..n] else buf[..len]
  }

  /** A NUL-terminated text that fits is copied whole. */
  lemma ToStringOfTerminated(s: string, len: nat)
    requires '\0' !in s && |s| <= len
    ensures ToString(s + ['\0'], len) == s
  {
    var buf := s + ['\0'];
    assert buf[..|s|] == s;
  }
}
