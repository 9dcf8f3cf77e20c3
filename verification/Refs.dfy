/** Canonical cross-store references (src/refs.rs): a parser and a printer over real strings. */
module Refs {
  import opened Wrappers

  datatype RefError =
    | MissingScheme | UnknownScheme(scheme: string) | Whitespace | TrailingSlash
    | EmptySegment(segment: string) | MissingSegment(segment: string) | ExtraSegments(found: nat)
    | InvalidSegment(segment: string, value: string) | EmptyStoreId

  datatype CanonicalRef = CanonicalRef(storeId: string, company: string, project: string, issueId: string)

  const SCHEME := "marbles://"
  const NAMES := ["store_id", "company", "project", "issue_id"]

  /** The Unicode White_Space property. */
  predicate IsWhitespace(c: char) {
    var n := c as int;
    9 <= n <= 13 || n == 0x20 || n == 0x85 || n == 0xA0 || n == 0x1680 || 0x2000 <= n <= 0x200A ||
    n == 0x2028 || n == 0x2029 || n == 0x202F || n == 0x205F || n == 0x3000
  }

  predicate SegmentChar(c: char) {
    '0' <= c <= '9' || 'a' <= c <= 'z' || 'A' <= c <= 'Z' || c == '_' || c == '-' || c == '.'
  }

  predicate ValidSegment(s: string) {
    s != "" && s != "." && s != ".." && forall k :: 0 <= k < |s| ==> SegmentChar(s[k])
  }

  /** A segment is a word of ASCII letters, digits, '-', '.' and '_', by their codes, and neither "." nor "..". */
  lemma SegmentLaw(s: string)
    ensures ValidSegment(s) <==>
            && s !in {"", ".", ".."}
            && forall k :: 0 <= k < |s| ==>
                             var n := s[k] as int;
                             48 <= n <= 57 || 65 <= n <= 90 || 97 <= n <= 122 || n in {45, 46, 95}
  {
  }

  /** The twenty-five code points Unicode counts as white space. */
  lemma WhitespaceLaw(c: char)
    ensures IsWhitespace(c) <==>
            c as int in {0x9, 0xA, 0xB, 0xC, 0xD, 0x20, 0x85, 0xA0, 0x1680, 0x2000, 0x2001, 0x2002, 0x2003, 0x2004,
                         0x2005, 0x2006, 0x2007, 0x2008, 0x2009, 0x200A, 0x2028, 0x2029, 0x202F, 0x205F, 0x3000}
  {
  }

  /** The printed form: the scheme, then store, company, project and issue, a slash between each two. */
  lemma DisplayLaw(r: CanonicalRef)
    ensures Display(r) == "marbles://" + Join([r.storeId, r.company, r.project, r.issueId])
  {
    PathJoins(r);
  }

  /** Which refusal a path earns: its first empty segment, then too few, then too many, then the first invalid one. */
  lemma PathRefusals(parts: seq<string>, k: nat)
    requires |parts| >= 1 && k < |parts|
    ensures var names, r := ["store_id", "company", "project", "issue_id"], ParseParts(parts);
            && (parts[k] == "" && (forall j :: 0 <= j < k ==> parts[j] != "") ==>
                  r == Err(EmptySegment(if k < 4 then names[k] else "path")))
            && ((forall p :: p in parts ==> p != "") && |parts| < 4 ==> r == Err(MissingSegment(names[|parts|])))
            && ((forall p :: p in parts ==> p != "") && |parts| > 4 ==> r == Err(ExtraSegments(|parts|)))
            && ((forall p :: p in parts ==> p != "") && |parts| == 4 && !ValidSegment(parts[k])
                && (forall j :: 0 <= j < k ==> ValidSegment(parts[j])) ==>
                  r == Err(InvalidSegment(names[k], parts[k])))
  {
    FirstEmptyIsFirst(parts, k);
    FirstInvalidIsFirst(parts, k);
    assert forall j :: 0 <= j < |parts| ==> parts[j] in parts;
  }

  lemma {:induction false} FirstEmptyIsFirst(parts: seq<string>, k: nat)
    requires k < |parts|
    ensures parts[k] == "" && (forall j :: 0 <= j < k ==> parts[j] != "") ==> FirstEmpty(parts) == Some(k)
  {
    if k > 0 {
      FirstEmptyIsFirst(parts[1..], k - 1);
    }
  }

  lemma {:induction false} FirstInvalidIsFirst(parts: seq<string>, k: nat)
    requires k < |parts|
    ensures !ValidSegment(parts[k]) && (forall j :: 0 <= j < k ==> ValidSegment(parts[j])) ==>
              FirstInvalid(parts) == Some(k)
  {
    if k > 0 {
      FirstInvalidIsFirst(parts[1..], k - 1);
    }
  }

  // ----- Strings -----

  /** `split('/')`: never empty, and one part longer than there are slashes. */
  function Split(s: string): (parts: seq<string>)
    ensures |parts| >= 1
  {
    if s == "" then [""]
    else
      var rest := Split(s[1..]);
      if s[0] == '/' then [""] + rest else [[s[0]] + rest[0]] + rest[1..]
  }

  function Join(parts: seq<string>): string
    requires |parts| >= 1
  {
    if |parts| == 1 then parts[0] else parts[0] + "/" + Join(parts[1..])
  }

  predicate HasPrefix(s: string, prefix: string) {
    |prefix| <= |s| && s[..|prefix|] == prefix
  }

  /** `split_once("://")`: what comes before the first "://". */
  function SchemeOf(s: string): Option<string> {
    if HasPrefix(s, "://") then Some("")
    else if s == "" then None
    else match SchemeOf(s[1..])
         case Some(scheme) => Some([s[0]] + scheme)
         case None => None
  }

  function FirstEmpty(parts: seq<string>): (i: Option<nat>)
    ensures i.Some? ==> i.value < |parts| && parts[i.value] == ""
    ensures i.None? <==> forall k :: 0 <= k < |parts| ==> parts[k] != ""
  {
    if parts == [] then None
    else if parts[0] == "" then Some(0)
    else match FirstEmpty(parts[1..])
         case Some(i) => Some(i + 1)
         case None => None
  }

  function FirstInvalid(parts: seq<string>): (i: Option<nat>)
    ensures i.Some? ==> i.value < |parts| && !ValidSegment(parts[i.value])
    ensures i.None? <==> forall k :: 0 <= k < |parts| ==> ValidSegment(parts[k])
  {
    if parts == [] then None
    else if !ValidSegment(parts[0]) then Some(0)
    else match FirstInvalid(parts[1..])
         case Some(i) => Some(i + 1)
         case None => None
  }

  // ----- Parsing and printing -----

  function ParseParts(parts: seq<string>): Result<CanonicalRef, RefError>
    requires |parts| >= 1
  {
    var empty := FirstEmpty(parts);
    if empty.Some? then Err(EmptySegment(if empty.value < 4 then NAMES[empty.value] else "path"))
    else if |parts| < 4 then Err(MissingSegment(NAMES[|parts|]))
    else if |parts| > 4 then Err(ExtraSegments(|parts|))
    else
      var invalid := FirstInvalid(parts);
      if invalid.Some? then Err(InvalidSegment(NAMES[invalid.value], parts[invalid.value]))
      else if parts[0] == "" then Err(EmptyStoreId)
      else Ok(CanonicalRef(parts[0], parts[1], parts[2], parts[3]))
  }

  function Parse(input: string): Result<CanonicalRef, RefError> {
    if exists k :: 0 <= k < |input| && IsWhitespace(input[k]) then Err(Whitespace)
    else if !HasPrefix(input, SCHEME) then
      var scheme := SchemeOf(input);
      if scheme.Some? then Err(UnknownScheme(scheme.value)) else Err(MissingScheme)
    else
      var rest := input[|SCHEME|..];
      if rest == "" then Err(EmptyStoreId)
      else if rest[|rest| - 1] == '/' then Err(TrailingSlash)
      else ParseParts(Split(rest))
  }

  function Display(r: CanonicalRef): string {
    SCHEME + r.storeId + "/" + r.company + "/" + r.project + "/" + r.issueId
  }

  predicate ValidRef(r: CanonicalRef) {
    ValidSegment(r.storeId) && ValidSegment(r.company) && ValidSegment(r.project) && ValidSegment(r.issueId)
  }

  // ----- Splitting and joining -----

  lemma {:induction false} JoinSplit(s: string)
    ensures Join(Split(s)) == s
  {
    if s != "" {
      var rest := Split(s[1..]);
      JoinSplit(s[1..]);
      assert s == [s[0]] + s[1..];
      if s[0] == '/' {
        assert ([""] + rest)[1..] == rest;
        assert "" + "/" + Join(rest) == "/" + s[1..];
      } else {
        var parts := [[s[0]] + rest[0]] + rest[1..];
        assert parts[1..] == rest[1..];
        if |rest| > 1 {
          assert [s[0]] + rest[0] + "/" + Join(rest[1..]) == [s[0]] + (rest[0] + "/" + Join(rest[1..]));
        }
      }
    }
  }

  predicate NoSlash(s: string) {
    forall k :: 0 <= k < |s| ==> s[k] != '/'
  }

  lemma {:induction false} SplitPlain(s: string)
    requires NoSlash(s)
    ensures Split(s) == [s]
  {
    if s != "" {
      SplitPlain(s[1..]);
      assert s == [s[0]] + s[1..];
    }
  }

  lemma {:induction false} SplitAtSlash(a: string, b: string)
    requires NoSlash(a)
    ensures Split(a + "/" + b) == [a] + Split(b)
  {
    var s := a + "/" + b;
    if a == "" {
      assert s == "/" + b;
      assert s[1..] == b;
    } else {
      SplitAtSlash(a[1..], b);
      assert s[1..] == a[1..] + "/" + b;
      assert a == [a[0]] + a[1..];
      assert ([a[1..]] + Split(b))[1..] == Split(b);
    }
  }

  lemma {:induction false} SplitJoin(parts: seq<string>)
    requires |parts| >= 1 && forall k :: 0 <= k < |parts| ==> NoSlash(parts[k])
    ensures Split(Join(parts)) == parts
  {
    if |parts| == 1 {
      SplitPlain(parts[0]);
    } else {
      SplitJoin(parts[1..]);
      SplitAtSlash(parts[0], Join(parts[1..]));
      assert parts == [parts[0]] + parts[1..];
    }
  }

  function Path(r: CanonicalRef): string {
    r.storeId + "/" + r.company + "/" + r.project + "/" + r.issueId
  }

  lemma PathJoins(r: CanonicalRef)
    ensures Join([r.storeId, r.company, r.project, r.issueId]) == Path(r)
    ensures Display(r) == SCHEME + Path(r)
  {
    JoinOne(r.project, [r.issueId]);
    JoinOne(r.company, [r.project, r.issueId]);
    JoinOne(r.storeId, [r.company, r.project, r.issueId]);
    assert [r.storeId] + [r.company, r.project, r.issueId] == [r.storeId, r.company, r.project, r.issueId];
    assert r.storeId + "/" + (r.company + "/" + (r.project + "/" + r.issueId)) == Path(r);
  }

  lemma JoinOne(first: string, rest: seq<string>)
    requires |rest| >= 1
    ensures Join([first] + rest) == first + "/" + Join(rest)
  {
    assert ([first] + rest)[1..] == rest;
  }

  // ----- Round trips -----

  lemma PathIsPlain(r: CanonicalRef)
    requires ValidRef(r)
    ensures Path(r) != "" && Path(r)[|Path(r)| - 1] != '/'
    ensures forall k :: 0 <= k < |Path(r)| ==> SegmentChar(Path(r)[k]) || Path(r)[k] == '/'
  {
  }

  lemma DisplayHasNoWhitespace(r: CanonicalRef)
    requires ValidRef(r)
    ensures forall k :: 0 <= k < |Display(r)| ==> !IsWhitespace(Display(r)[k])
  {
    PathJoins(r);
    PathIsPlain(r);
    forall k | 0 <= k < |Display(r)|
      ensures !IsWhitespace(Display(r)[k])
    {
      assert k >= |SCHEME| ==> Display(r)[k] == Path(r)[k - |SCHEME|];
    }
  }

  lemma PartsParse(r: CanonicalRef)
    requires ValidRef(r)
    ensures ParseParts([r.storeId, r.company, r.project, r.issueId]) == Ok(r)
  {
    var parts := [r.storeId, r.company, r.project, r.issueId];
    assert forall k :: 0 <= k < |parts| ==> ValidSegment(parts[k]);
    assert FirstEmpty(parts).None? && FirstInvalid(parts).None?;
  }

  /** Printing then parsing returns the reference. */
  lemma ParseOfDisplay(r: CanonicalRef)
    requires ValidRef(r)
    ensures Parse(Display(r)) == Ok(r)
  {
    var input := Display(r);
    PathJoins(r);
    PathIsPlain(r);
    DisplayHasNoWhitespace(r);
    PartsParse(r);
    SplitJoin([r.storeId, r.company, r.project, r.issueId]);
    assert input[..|SCHEME|] == SCHEME && input[|SCHEME|..] == Path(r);
  }

  /** Parsing then printing returns the accepted string, and only valid references are produced. */
  lemma DisplayOfParse(input: string)
    requires Parse(input).Ok?
    ensures ValidRef(Parse(input).value) && Display(Parse(input).value) == input
  {
    var rest, r := input[|SCHEME|..], Parse(input).value;
    var parts := Split(rest);
    JoinSplit(rest);
    assert parts == [r.storeId, r.company, r.project, r.issueId];
    PathJoins(r);
    assert input == input[..|SCHEME|] + rest;
  }

  /** The accepted strings are exactly the scheme followed by four valid segments. */
  lemma AcceptedStrings(input: string)
    ensures Parse(input).Ok? <==> exists r :: ValidRef(r) && Display(r) == input
  {
    if Parse(input).Ok? {
      DisplayOfParse(input);
    }
    if r :| ValidRef(r) && Display(r) == input {
      ParseOfDisplay(r);
    }
  }

  /** One string per reference: the display form is a normal form. */
  lemma DisplayIsInjective(r: CanonicalRef, s: CanonicalRef)
    requires ValidRef(r) && ValidRef(s) && Display(r) == Display(s)
    ensures r == s
  {
    ParseOfDisplay(r);
    ParseOfDisplay(s);
  }

  /** The parser's last check never fires: an empty store id is reported only for the bare scheme. */
  lemma EmptyStoreIdMeansBareScheme(input: string)
    ensures Parse(input) == Err(EmptyStoreId) <==> input == SCHEME
  {
    if input == SCHEME {
      assert input[..|SCHEME|] == SCHEME && input[|SCHEME|..] == "";
    }
    if Parse(input) == Err(EmptyStoreId) {
      assert input == input[..|SCHEME|] + input[|SCHEME|..];
    }
  }
}
