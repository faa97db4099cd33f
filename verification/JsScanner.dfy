/**
 The scanner that finds npm dependencies in JavaScript source: an index walks over the characters, looks
 ahead from each `require` and `import`, and jumps over the keyword it has just handled.

 `Scan` is the walk. `ScanExactly` replaces it by a statement about single positions of the text, from which
 completeness and monotonicity follow.
 */
module JsScanner {
  import opened Common
  import opened Text

  const REQUIRE := "require"
  const IMPORT := "import"
  const FROM := "from"

  const BUILTINS: set<string> := {
    "assert", "async_hooks", "buffer", "child_process", "cluster", "console", "constants",
    "crypto", "dgram", "dns", "domain", "events", "fs", "fs/promises", "http", "http2",
    "https", "inspector", "module", "net", "os", "path", "perf_hooks", "process",
    "punycode", "querystring", "readline", "repl", "stream", "string_decoder",
    "timers", "tls", "trace_events", "tty", "url", "util", "v8", "vm", "wasi",
    "worker_threads", "zlib"
  }

  predicate IsQuote(c: char) {
    c == '\'' || c == '"' || c == '`'
  }

  // ---------- package names ----------

  function SanitizeNpmPackageName(raw: string): Option<string> {
    var name := Trim(raw);
    if |name| == 0 || name[0] == '.' || name[0] == '/' then None else
    var i := Find(name, '/', 0);
    if name[0] != '@' then Some(name[..i])
    else if i == |name| then None
    else Some(name[..Find(name, '/', i + 1)])
  }

  /** A sanitized name that is not a Node builtin. */
  function Package(literal: string): Option<string> {
    match SanitizeNpmPackageName(literal)
    case None => None
    case Some(name) => if name in BUILTINS then None else Some(name)
  }

  // ---------- looking ahead from a keyword ----------

  /** The keyword is at `i`, with at least one more character after it. */
  predicate WordAt(s: string, i: nat, word: string) {
    i + |word| < |s| && s[i..i + |word|] == word
  }

  function SkipSpace(s: string, p: nat): (r: nat)
    requires p <= |s|
    ensures p <= r <= |s|
    ensures forall k :: p <= k < r ==> IsSpace(s[k])
    ensures r < |s| ==> !IsSpace(s[r])
    decreases |s| - p
  {
    if p < |s| && IsSpace(s[p]) then SkipSpace(s, p + 1) else p
  }

  /** The text between the quote at `p` and the next quote of the same kind. */
  function Quoted(s: string, p: nat): Option<string>
    requires p <= |s|
  {
    if p == |s| || !IsQuote(s[p]) then None else
    var close := Find(s, s[p], p + 1);
    if close == |s| then None else Some(s[p + 1..close])
  }

  predicate FromAt(s: string, p: nat) {
    1 <= p && WordAt(s, p, FROM) && IsSpace(s[p - 1]) && IsSpace(s[p + 4])
  }

  function FindFrom(s: string, p: nat): (r: Option<nat>)
    requires p <= |s|
    ensures r.Some? ==> p <= r.value && FromAt(s, r.value)
    ensures r.Some? ==> forall k :: p <= k < r.value ==> !FromAt(s, k)
    ensures r.Some? ==> forall k :: p <= k <= r.value ==> s[k] != ';' && s[k] != '\n'
    decreases |s| - p
  {
    if p == |s| || s[p] == ';' || s[p] == '\n' then None
    else if FromAt(s, p) then Some(p)
    else FindFrom(s, p + 1)
  }

  function CallArgument(s: string, p: nat): Option<string>
    requires p < |s| && s[p] == '('
  {
    Quoted(s, SkipSpace(s, p + 1))
  }

  /** What follows `require` at position `start`: the first argument of a call. */
  function AfterRequire(s: string, start: nat): Option<string>
    requires start <= |s|
  {
    var p := SkipSpace(s, start);
    if p < |s| && s[p] == '(' then CallArgument(s, p) else None
  }

  /** What follows `import` at position `start`: a dynamic import, or a static one with its `from`. */
  function AfterImport(s: string, start: nat): Option<string>
    requires start <= |s|
  {
    var p := SkipSpace(s, start);
    if p < |s| && s[p] == '(' then CallArgument(s, p) else
    match FindFrom(s, start)
    case None => None
    case Some(f) => Quoted(s, SkipSpace(s, f + 4))
  }

  function LiteralAt(s: string, i: nat): Option<string> {
    if WordAt(s, i, REQUIRE) then AfterRequire(s, i + 7)
    else if WordAt(s, i, IMPORT) then AfterImport(s, i + 6)
    else None
  }

  function PackageAt(s: string, i: nat): Option<string> {
    match LiteralAt(s, i)
    case None => None
    case Some(literal) => Package(literal)
  }

  // ---------- the walk ----------

  function ToSet(o: Option<string>): set<string> {
    if o.None? then {} else {o.value}
  }

  function Step(s: string, i: nat): (next: nat)
    requires i < |s|
    ensures i < next <= |s|
  {
    if WordAt(s, i, REQUIRE) then i + 7 else if WordAt(s, i, IMPORT) then i + 6 else i + 1
  }

  function Scan(s: string, i: nat): set<string>
    requires i <= |s|
    decreases |s| - i
  {
    if i == |s| then {} else ToSet(PackageAt(s, i)) + Scan(s, Step(s, i))
  }

  method SkipSpaces(chars: string, start: nat) returns (p: nat)
    requires start <= |chars|
    ensures p == SkipSpace(chars, start)
  {
    p := start;
    while p < |chars| && IsSpace(chars[p])
      invariant start <= p <= |chars|
      invariant SkipSpace(chars, p) == SkipSpace(chars, start)
    {
      p := p + 1;
    }
  }

  method ReadQuoted(chars: string, start: nat) returns (literal: Option<string>)
    requires start <= |chars|
    ensures literal == Quoted(chars, start)
  {
    var p := start;
    if p < |chars| && IsQuote(chars[p]) {
      var quote := chars[p];
      p := p + 1;
      while p < |chars| && chars[p] != quote
        invariant start + 1 <= p <= |chars|
        invariant Find(chars, quote, p) == Find(chars, quote, start + 1)
      {
        p := p + 1;
      }
      if p < |chars| {
        return Some(chars[start + 1..p]);
      }
    }
    literal := None;
  }

  method ReadArgument(chars: string, paren: nat) returns (literal: Option<string>)
    requires paren < |chars| && chars[paren] == '('
    ensures literal == CallArgument(chars, paren)
  {
    var p := SkipSpaces(chars, paren + 1);
    literal := ReadQuoted(chars, p);
  }

  method ReadRequire(chars: string, start: nat) returns (literal: Option<string>)
    requires start <= |chars|
    ensures literal == AfterRequire(chars, start)
  {
    var p := SkipSpaces(chars, start);
    if p < |chars| && chars[p] == '(' {
      literal := ReadArgument(chars, p);
    } else {
      literal := None;
    }
  }

  /** The search for `from` in a static import; it gives up at the end of the statement or line. */
  method SeekFrom(chars: string, start: nat) returns (r: Option<nat>)
    requires 1 <= start <= |chars|
    ensures r == FindFrom(chars, start)
  {
    var p := start;
    while p < |chars|
      invariant start <= p <= |chars|
      invariant FindFrom(chars, p) == FindFrom(chars, start)
    {
      if chars[p] == ';' || chars[p] == '\n' { return None; }
      if p + 4 < |chars| && chars[p..p + 4] == FROM && IsSpace(chars[p - 1]) && IsSpace(chars[p + 4]) {
        return Some(p);
      }
      p := p + 1;
    }
    r := None;
  }

  method ReadImport(chars: string, start: nat) returns (literal: Option<string>)
    requires 1 <= start <= |chars|
    ensures literal == AfterImport(chars, start)
  {
    var temp := SkipSpaces(chars, start);
    if temp < |chars| && chars[temp] == '(' {
      literal := ReadArgument(chars, temp);
    } else {
      var found := SeekFrom(chars, start);
      if found.None? {
        return None;
      }
      var p := SkipSpaces(chars, found.value + 4);
      literal := ReadQuoted(chars, p);
    }
  }

  method InsertPackage(deps: set<string>, literal: Option<string>) returns (r: set<string>)
    ensures r == deps + if literal.None? then {} else ToSet(Package(literal.value))
  {
    r := deps;
    if literal.Some? {
      var pkg := SanitizeNpmPackageName(literal.value);
      if pkg.Some? && pkg.value !in BUILTINS {
        r := r + {pkg.value};
      }
    }
  }

  method ExtractJsDependencies(code: string) returns (deps: set<string>)
    ensures deps == Scan(code, 0)
  {
    deps := {};
    var i := 0;
    while i < |code|
      invariant i <= |code|
      invariant deps + Scan(code, i) == Scan(code, 0)
    {
      if i + 7 < |code| && code[i..i + 7] == REQUIRE {
        var literal := ReadRequire(code, i + 7);
        deps := InsertPackage(deps, literal);
        i := i + 7;
        continue;
      }
      if i + 6 < |code| && code[i..i + 6] == IMPORT {
        var literal := ReadImport(code, i + 6);
        deps := InsertPackage(deps, literal);
        i := i + 6;
        continue;
      }
      i := i + 1;
    }
  }

  // ---------- which keywords the walk stops at ----------

  /** How many `require`s start 5, 10, 15, ... characters before `i`: the text before `i` is "requirequi...". */
  function Chain(s: string, i: nat): nat {
    if i >= 5 && WordAt(s, i - 5, REQUIRE) then 1 + Chain(s, i - 5) else 0
  }

  /** A `require` is jumped over exactly when it is an odd link of such a chain. An `import` never is. */
  predicate Skipped(s: string, i: nat) {
    WordAt(s, i, REQUIRE) && Chain(s, i) % 2 == 1
  }

  ghost predicate Contributes(s: string, i: nat, name: string) {
    PackageAt(s, i) == Some(name) && !Skipped(s, i)
  }

  lemma RequireChars(s: string, i: nat)
    requires WordAt(s, i, REQUIRE)
    ensures s[i] == 'r' && s[i + 1] == 'e' && s[i + 2] == 'q' && s[i + 3] == 'u'
    ensures s[i + 4] == 'i' && s[i + 5] == 'r' && s[i + 6] == 'e'
  {
    var w := s[i..i + 7];
    assert w[0] == 'r' && w[1] == 'e' && w[2] == 'q' && w[3] == 'u' && w[4] == 'i' && w[5] == 'r' && w[6] == 'e';
  }

  lemma ImportChars(s: string, i: nat)
    requires WordAt(s, i, IMPORT)
    ensures s[i] == 'i' && s[i + 1] == 'm' && s[i + 2] == 'p' && s[i + 3] == 'o' && s[i + 4] == 'r' && s[i + 5] == 't'
  {
    var w := s[i..i + 6];
    assert w[0] == 'i' && w[1] == 'm' && w[2] == 'p' && w[3] == 'o' && w[4] == 'r' && w[5] == 't';
  }

  /** The only keyword that starts inside another one is a `require` at the "re" that ends a `require`. */
  lemma Overlaps(s: string, i: nat, m: nat)
    requires i < |s| && i < m < Step(s, i)
    ensures !WordAt(s, m, IMPORT)
    ensures WordAt(s, m, REQUIRE) ==> m == i + 5 && WordAt(s, i, REQUIRE)
  {
    if WordAt(s, i, REQUIRE) { RequireChars(s, i); } else { ImportChars(s, i); }
    if WordAt(s, m, REQUIRE) { RequireChars(s, m); }
    if WordAt(s, m, IMPORT) { ImportChars(s, m); }
  }

  /** Position `j` is one the walk can stop at: no handled keyword reaches beyond it. */
  ghost predicate Clear(s: string, j: nat) {
    forall i :: j <= i < j + 5 ==> !Skipped(s, i)
  }

  /** The positions a step jumps over name no package, or are skipped. */
  lemma JumpedOver(s: string, j: nat, m: nat)
    requires j < |s| && !Skipped(s, j) && j < m < Step(s, j)
    ensures PackageAt(s, m) == None || Skipped(s, m)
  {
    Overlaps(s, j, m);
    if WordAt(s, m, REQUIRE) {
      assert Chain(s, m) == 1 + Chain(s, j);
    }
  }

  lemma StepKeepsClear(s: string, j: nat)
    requires j < |s| && Clear(s, j)
    ensures Clear(s, Step(s, j))
  {
    var next := Step(s, j);
    assert !Skipped(s, j);
    forall i | next <= i < next + 5 ensures !Skipped(s, i) {
      if i < j + 5 {
        assert !Skipped(s, i);
      } else if WordAt(s, i - 5, REQUIRE) && j < i - 5 {
        Overlaps(s, j, i - 5);
        assert Chain(s, i) == 1 + Chain(s, j + 5) == 2 + Chain(s, j);
      }
    }
  }

  lemma {:induction false} ScanFrom(s: string, j: nat, name: string)
    requires j <= |s| && Clear(s, j)
    ensures name in Scan(s, j) <==> exists i :: j <= i < |s| && Contributes(s, i, name)
    decreases |s| - j
  {
    if j < |s| {
      var next := Step(s, j);
      StepKeepsClear(s, j);
      ScanFrom(s, next, name);
      assert !Skipped(s, j);
      if name in Scan(s, j) {
        if name in ToSet(PackageAt(s, j)) {
          assert Contributes(s, j, name);
        }
      } else {
        forall i | j <= i < |s| ensures !Contributes(s, i, name) {
          if i < next && i != j {
            JumpedOver(s, j, i);
          }
        }
      }
    }
  }

  /**
   The scanner returns exactly the packages named at a `require` or `import` that is not skipped, wherever
   these stand in the text.
   */
  lemma ScanExactly(s: string, name: string)
    ensures name in Scan(s, 0) <==> exists i :: 0 <= i < |s| && Contributes(s, i, name)
  {
    forall i | 0 <= i < 5 ensures !Skipped(s, i) {
      assert Chain(s, i) == 0;
    }
    ScanFrom(s, 0, name);
  }

  // ---------- consequences ----------

  /** Every quoted `require` that is not preceded by "requi" is found. */
  lemma RequireIsFound(s: string, i: nat)
    requires WordAt(s, i, REQUIRE)
    requires i < 5 || s[i - 5..i] != "requi"
    ensures PackageAt(s, i).Some? ==> PackageAt(s, i).value in Scan(s, 0)
  {
    if i >= 5 && WordAt(s, i - 5, REQUIRE) {
      RequireChars(s, i - 5);
    }
    if PackageAt(s, i).Some? {
      assert Contributes(s, i, PackageAt(s, i).value);
      ScanExactly(s, PackageAt(s, i).value);
    }
  }

  /** Every quoted `import` is found. */
  lemma ImportIsFound(s: string, i: nat)
    requires WordAt(s, i, IMPORT)
    ensures PackageAt(s, i).Some? ==> PackageAt(s, i).value in Scan(s, 0)
  {
    ImportChars(s, i);
    if WordAt(s, i, REQUIRE) {
      RequireChars(s, i);
    }
    if PackageAt(s, i).Some? {
      assert Contributes(s, i, PackageAt(s, i).value);
      ScanExactly(s, PackageAt(s, i).value);
    }
  }

  /** A skipped `require` does lose its package: the call in this text is not reported. */
  lemma SkippedRequireIsLost(s: string)
    requires s == "requirequire('a')"
    ensures PackageAt(s, 5) == Some("a") && Skipped(s, 5) && "a" !in Scan(s, 0)
  {
    WordIs(s, 0);
    WordIs(s, 5);
    SecondCallIs(s);
    FirstRequireIsNoCall(s);
    assert Chain(s, 5) == 1 + Chain(s, 0) == 1;
    NoOtherKeyword(s);
    ScanExactly(s, "a");
  }

  lemma FirstRequireIsNoCall(s: string)
    requires s == "requirequire('a')"
    ensures AfterRequire(s, 7) == None
  {
    SkipSpaceIs(s, 7, 7);
  }

  lemma SecondCallIs(s: string)
    requires s == "requirequire('a')"
    ensures AfterRequire(s, 12) == Some("a") && Package("a") == Some("a")
  {
    assert CallOpens(s, 12, 12, 13) && QuotedBetween(s, 13, 15);
    CallIs(s, 12, 12, 13, 15);
    assert s[14..15] == "a";
    PlainName("a");
  }

  lemma NoOtherKeyword(s: string)
    requires s == "requirequire('a')"
    ensures forall i :: 0 <= i < |s| && i != 0 && i != 5 ==> PackageAt(s, i) == None
  {
    forall i | 0 <= i < |s| && i != 0 && i != 5 ensures !WordAt(s, i, REQUIRE) && !WordAt(s, i, IMPORT) {
      if WordAt(s, i, REQUIRE) { RequireChars(s, i); }
      if WordAt(s, i, IMPORT) { ImportChars(s, i); }
    }
  }

  lemma WordIs(s: string, i: nat)
    requires i + 7 < |s| && s[i] == 'r' && s[i + 1] == 'e' && s[i + 2] == 'q' && s[i + 3] == 'u'
    requires s[i + 4] == 'i' && s[i + 5] == 'r' && s[i + 6] == 'e'
    ensures WordAt(s, i, REQUIRE)
  {
    assert s[i..i + 7] == ['r', 'e', 'q', 'u', 'i', 'r', 'e'];
  }

  lemma PlainName(name: string)
    requires |name| == 1 && !IsSpace(name[0]) && name[0] !in {'.', '/', '@'}
    ensures SanitizeNpmPackageName(name) == Some(name)
  {
    assert name[..Find(name, '/', 0)] == name;
  }

  // ---------- names and literals ----------

  ghost predicate OneSlash(name: string) {
    exists k :: 0 < k < |name| && name[k] == '/' && '/' !in name[..k] && '/' !in name[k + 1..]
  }

  /** `name` is the package that the stripped text `t` asks for: its first part, or a scope and the part after it. */
  ghost predicate FirstParts(t: string, name: string) {
    && |name| > 0 && name <= t && (|name| == |t| || t[|name|] == '/')
    && name[0] != '.' && name[0] != '/'
    && (if name[0] == '@' then OneSlash(name) else '/' !in name)
  }

  /** Only an empty, relative or absolute path and a scope without a name ask for no package. */
  ghost predicate NoPackage(t: string) {
    |t| == 0 || t[0] == '.' || t[0] == '/' || (t[0] == '@' && '/' !in t)
  }

  lemma SanitizedExactly(raw: string)
    ensures SanitizeNpmPackageName(raw).None? <==> NoPackage(Trim(raw))
    ensures forall name :: SanitizeNpmPackageName(raw) == Some(name) <==> FirstParts(Trim(raw), name)
  {
    var t := Trim(raw);
    if NoPackage(t) {
      forall name ensures !FirstParts(t, name) {
        if FirstParts(t, name) { NoPartsOfNone(t, name); }
      }
    } else {
      var name := SanitizeNpmPackageName(raw).value;
      SanitizedIsFirst(t, name);
      forall other | FirstParts(t, other) ensures other == name { OnlyFirstParts(t, name, other); }
    }
  }

  lemma NoPartsOfNone(t: string, name: string)
    requires FirstParts(t, name)
    ensures !NoPackage(t)
  {
    assert t[0] == name[0];
    if name[0] == '@' {
      var k :| 0 < k < |name| && name[k] == '/' && '/' !in name[..k] && '/' !in name[k + 1..];
      assert t[k] == '/';
    }
  }

  lemma SanitizedIsFirst(t: string, name: string)
    requires !NoPackage(t)
    requires var i := Find(t, '/', 0);
      name == if t[0] != '@' then t[..i] else t[..Find(t, '/', if i < |t| then i + 1 else i)]
    ensures FirstParts(t, name)
  {
    var i := Find(t, '/', 0);
    if t[0] == '@' {
      assert i < |t|;
      assert name[i] == '/' && '/' !in name[..i] && '/' !in name[i + 1..];
    }
  }

  lemma OnlyFirstParts(t: string, x: string, y: string)
    requires FirstParts(t, x) && FirstParts(t, y)
    ensures x == y
  {
    if |x| < |y| { NoLongerPart(t, x, y); }
    if |y| < |x| { NoLongerPart(t, y, x); }
    assert x == t[..|x|] && y == t[..|y|];
  }

  /** The slash behind a part, and the part's own one, are slashes of any longer prefix. */
  lemma NoLongerPart(t: string, x: string, y: string)
    requires FirstParts(t, x) && y <= t && |x| < |y|
    ensures !FirstParts(t, y)
  {
    assert y[0] == t[0] == x[0] && y[|x|] == t[|x|] == '/';
    if x[0] == '@' {
      var k :| 0 < k < |x| && x[k] == '/' && '/' !in x[..k] && '/' !in x[k + 1..];
      assert y[k] == t[k] == x[k];
      NotOneSlash(y, k, |x|);
    }
  }

  lemma NotOneSlash(y: string, a: nat, b: nat)
    requires a < b < |y| && y[a] == y[b] == '/'
    ensures !OneSlash(y)
  {
    forall k | 0 < k < |y| ensures !(y[k] == '/' && '/' !in y[..k] && '/' !in y[k + 1..]) {
      if a < k {
        assert y[..k][a] == '/';
      } else {
        assert y[k + 1..][b - k - 1] == '/';
      }
    }
  }

  /** The literal, less the white space around it, asks for the package `name`, and that is no builtin. */
  ghost predicate AsksFor(literal: string, name: string) {
    && name !in BUILTINS
    && exists i: nat, j: nat :: StripsTo(literal, i, j) && FirstParts(literal[i..j], name)
  }

  lemma PackageExactly(literal: string, name: string)
    ensures Package(literal) == Some(name) <==> AsksFor(literal, name)
  {
    SanitizedExactly(literal);
    if Package(literal) == Some(name) {
      var i, j := Trimmed(literal);
      assert StripsTo(literal, i, j) && FirstParts(literal[i..j], name);
    }
    if AsksFor(literal, name) {
      var i: nat, j: nat :| StripsTo(literal, i, j) && FirstParts(literal[i..j], name);
      TrimIs(literal, i, j);
    }
  }

  // ---------- what the lookahead accepts ----------

  ghost predicate AllSpace(s: string, a: nat, b: nat) {
    a <= b <= |s| && forall k :: a <= k < b ==> IsSpace(s[k])
  }

  /** `open` and `close` hold the same quote, and none of that kind is between them. */
  ghost predicate QuotedBetween(s: string, open: nat, close: nat) {
    && open < close < |s| && IsQuote(s[open]) && s[close] == s[open]
    && forall k :: open < k < close ==> s[k] != s[open]
  }

  ghost predicate ParenAfter(s: string, start: nat, paren: nat) {
    AllSpace(s, start, paren) && paren < |s| && s[paren] == '('
  }

  ghost predicate NoParen(s: string, start: nat) {
    forall paren: nat :: !ParenAfter(s, start, paren)
  }

  /** `from`, between two white-space characters. */
  ghost predicate SpacedFrom(s: string, f: nat) {
    && 1 <= f && f + 4 < |s| && IsSpace(s[f - 1]) && IsSpace(s[f + 4])
    && s[f] == 'f' && s[f + 1] == 'r' && s[f + 2] == 'o' && s[f + 3] == 'm'
  }

  lemma FromIsSpaced(s: string, f: nat)
    ensures FromAt(s, f) <==> SpacedFrom(s, f)
  {
    if f + 4 < |s| {
      var w := s[f..f + 4];
      assert w[0] == s[f] && w[1] == s[f + 1] && w[2] == s[f + 2] && w[3] == s[f + 3];
      assert SpacedFrom(s, f) ==> w == ['f', 'r', 'o', 'm'];
    }
  }

  ghost predicate FirstFromAfter(s: string, start: nat, f: nat) {
    && start <= f && SpacedFrom(s, f)
    && (forall k :: start <= k < f ==> !SpacedFrom(s, k))
    && (forall k :: start <= k <= f ==> s[k] != ';' && s[k] != '\n')
  }

  ghost predicate CallOpens(s: string, start: nat, paren: nat, open: nat) {
    ParenAfter(s, start, paren) && AllSpace(s, paren + 1, open)
  }

  ghost predicate FromOpens(s: string, start: nat, f: nat, open: nat) {
    FirstFromAfter(s, start, f) && AllSpace(s, f + 4, open)
  }

  ghost predicate HasCall(s: string, start: nat, open: nat) {
    exists paren: nat :: CallOpens(s, start, paren, open)
  }

  ghost predicate HasFrom(s: string, start: nat, open: nat) {
    && NoParen(s, start)
    && exists f: nat :: FromOpens(s, start, f, open)
  }

  /** The keyword at `i` leads up to position `open`: a call, or a static import with its `from`. */
  ghost predicate LeadsTo(s: string, i: nat, open: nat) {
    || (WordAt(s, i, REQUIRE) && HasCall(s, i + 7, open))
    || (WordAt(s, i, IMPORT) && (HasCall(s, i + 6, open) || HasFrom(s, i + 6, open)))
  }

  ghost predicate LiteralSpans(s: string, i: nat, open: nat, close: nat) {
    LeadsTo(s, i, open) && QuotedBetween(s, open, close)
  }

  lemma {:induction false} SkipSpaceIs(s: string, a: nat, b: nat)
    requires AllSpace(s, a, b) && b < |s| && !IsSpace(s[b])
    ensures SkipSpace(s, a) == b
  {
    var r := SkipSpace(s, a);
    assert r >= b;
  }

  lemma QuotedIs(s: string, start: nat, open: nat, close: nat)
    requires AllSpace(s, start, open) && QuotedBetween(s, open, close)
    ensures Quoted(s, SkipSpace(s, start)) == Some(s[open + 1..close])
  {
    SkipSpaceIs(s, start, open);
    assert Find(s, s[open], open + 1) == close;
  }

  lemma CallIs(s: string, start: nat, paren: nat, open: nat, close: nat)
    requires CallOpens(s, start, paren, open) && QuotedBetween(s, open, close)
    ensures AfterRequire(s, start) == AfterImport(s, start) == Some(s[open + 1..close])
  {
    SkipSpaceIs(s, start, paren);
    QuotedIs(s, paren + 1, open, close);
  }

  lemma FromIs(s: string, start: nat, f: nat, open: nat, close: nat)
    requires start <= |s| && NoParen(s, start) && FromOpens(s, start, f, open) && QuotedBetween(s, open, close)
    ensures AfterImport(s, start) == Some(s[open + 1..close])
  {
    assert !ParenAfter(s, start, SkipSpace(s, start));
    FindFromIs(s, start, f);
    QuotedIs(s, f + 4, open, close);
  }

  lemma KeywordsDiffer(s: string, i: nat)
    ensures !(WordAt(s, i, REQUIRE) && WordAt(s, i, IMPORT))
  {
    if WordAt(s, i, REQUIRE) && WordAt(s, i, IMPORT) {
      RequireChars(s, i);
      ImportChars(s, i);
    }
  }

  lemma {:induction false} FindFromIs(s: string, start: nat, f: nat)
    requires FirstFromAfter(s, start, f)
    ensures FindFrom(s, start) == Some(f)
    decreases f - start
  {
    FromIsSpaced(s, start);
    if start < f {
      FindFromIs(s, start + 1, f);
    }
  }

  lemma QuotedIsSpanned(s: string, start: nat) returns (open: nat, close: nat)
    requires start <= |s| && Quoted(s, SkipSpace(s, start)).Some?
    ensures AllSpace(s, start, open) && QuotedBetween(s, open, close)
    ensures Quoted(s, SkipSpace(s, start)) == Some(s[open + 1..close])
  {
    open := SkipSpace(s, start);
    close := Find(s, s[open], open + 1);
  }

  lemma RequireIsSpanned(s: string, start: nat) returns (open: nat, close: nat)
    requires start <= |s| && AfterRequire(s, start).Some?
    ensures HasCall(s, start, open) && QuotedBetween(s, open, close)
    ensures AfterRequire(s, start) == Some(s[open + 1..close])
  {
    var p := SkipSpace(s, start);
    open, close := QuotedIsSpanned(s, p + 1);
    assert CallOpens(s, start, p, open);
  }

  lemma NoParenAt(s: string, start: nat)
    requires start <= |s| && (SkipSpace(s, start) < |s| ==> s[SkipSpace(s, start)] != '(')
    ensures NoParen(s, start)
  {
    forall paren: nat ensures !ParenAfter(s, start, paren) {
      if ParenAfter(s, start, paren) { SkipSpaceIs(s, start, paren); }
    }
  }

  lemma FromIsSpanned(s: string, start: nat, f: nat) returns (open: nat, close: nat)
    requires start <= |s| && NoParen(s, start) && FindFrom(s, start) == Some(f)
    requires Quoted(s, SkipSpace(s, f + 4)).Some?
    ensures HasFrom(s, start, open) && QuotedBetween(s, open, close)
    ensures Quoted(s, SkipSpace(s, f + 4)) == Some(s[open + 1..close])
  {
    open, close := QuotedIsSpanned(s, f + 4);
    forall k | start <= k <= f ensures FromAt(s, k) <==> SpacedFrom(s, k) { FromIsSpaced(s, k); }
    assert FromOpens(s, start, f, open);
  }

  lemma StaticImportIsSpanned(s: string, start: nat) returns (open: nat, close: nat)
    requires start <= |s| && AfterImport(s, start).Some? && NoParen(s, start)
    ensures HasFrom(s, start, open) && QuotedBetween(s, open, close)
    ensures AfterImport(s, start) == Some(s[open + 1..close])
  {
    var p := SkipSpace(s, start);
    assert !ParenAfter(s, start, p);
    open, close := FromIsSpanned(s, start, FindFrom(s, start).value);
  }

  predicate IsDynamic(s: string, start: nat)
    requires start <= |s|
  {
    SkipSpace(s, start) < |s| && s[SkipSpace(s, start)] == '('
  }

  lemma DynamicImportIsSpanned(s: string, start: nat) returns (open: nat, close: nat)
    requires start <= |s| && AfterImport(s, start).Some? && IsDynamic(s, start)
    ensures HasCall(s, start, open) && QuotedBetween(s, open, close)
    ensures AfterImport(s, start) == Some(s[open + 1..close])
  {
    assert AfterImport(s, start) == AfterRequire(s, start);
    open, close := RequireIsSpanned(s, start);
  }

  lemma ImportIsSpanned(s: string, start: nat) returns (open: nat, close: nat)
    requires start <= |s| && AfterImport(s, start).Some?
    ensures HasCall(s, start, open) || HasFrom(s, start, open)
    ensures QuotedBetween(s, open, close)
    ensures AfterImport(s, start) == Some(s[open + 1..close])
  {
    if IsDynamic(s, start) {
      open, close := DynamicImportIsSpanned(s, start);
    } else {
      NoParenAt(s, start);
      open, close := StaticImportIsSpanned(s, start);
    }
  }

  /** Whatever the lookahead returns is a quoted literal that the keyword leads to. */
  lemma LiteralIsSpanned(s: string, i: nat) returns (open: nat, close: nat)
    requires LiteralAt(s, i).Some?
    ensures LiteralSpans(s, i, open, close) && LiteralAt(s, i) == Some(s[open + 1..close])
  {
    if WordAt(s, i, REQUIRE) {
      open, close := RequireIsSpanned(s, i + 7);
    } else {
      open, close := ImportIsSpanned(s, i + 6);
    }
  }

  /**
   The result of the scanner in terms of the text alone: a name is returned exactly when some keyword that is
   not skipped leads to a quoted literal that asks for that name: stripped of white space, its first part, or a
   scope and the part after it, and no builtin.
   */
  lemma DependenciesExactly(s: string, name: string)
    ensures name in Scan(s, 0) <==>
      exists i: nat, open: nat, close: nat ::
        LiteralSpans(s, i, open, close) && !Skipped(s, i) && AsksFor(s[open + 1..close], name)
  {
    ScanExactly(s, name);
    if name in Scan(s, 0) {
      var i :| 0 <= i < |s| && Contributes(s, i, name);
      var open, close := LiteralIsSpanned(s, i);
      PackageExactly(s[open + 1..close], name);
      assert LiteralSpans(s, i, open, close) && AsksFor(s[open + 1..close], name);
    }
    if exists i: nat, open: nat, close: nat ::
      LiteralSpans(s, i, open, close) && !Skipped(s, i) && AsksFor(s[open + 1..close], name)
    {
      var i: nat, open: nat, close: nat :|
        LiteralSpans(s, i, open, close) && !Skipped(s, i) && AsksFor(s[open + 1..close], name);
      PackageExactly(s[open + 1..close], name);
      SpannedLiteral(s, i, open, close);
      assert Contributes(s, i, name);
    }
  }

  lemma SpannedLiteral(s: string, i: nat, open: nat, close: nat)
    requires LiteralSpans(s, i, open, close)
    ensures LiteralAt(s, i) == Some(s[open + 1..close])
  {
    KeywordsDiffer(s, i);
    var start := if WordAt(s, i, REQUIRE) then i + 7 else i + 6;
    if HasCall(s, start, open) {
      var paren: nat :| CallOpens(s, start, paren, open);
      CallIs(s, start, paren, open, close);
    } else {
      var f: nat :| FromOpens(s, start, f, open);
      FromIs(s, start, f, open, close);
    }
  }

  // ---------- appending text ----------

  lemma WordAtLonger(s: string, more: string, i: nat, word: string)
    requires i + |word| < |s|
    ensures WordAt(s + more, i, word) <==> WordAt(s, i, word)
  {
    assert (s + more)[i..i + |word|] == s[i..i + |word|];
  }

  lemma {:induction false} ChainOfLonger(s: string, more: string, i: nat)
    requires i + 2 < |s|
    ensures Chain(s + more, i) == Chain(s, i)
  {
    if i >= 5 {
      WordAtLonger(s, more, i - 5, REQUIRE);
      ChainOfLonger(s, more, i - 5);
    }
  }

  lemma FirstFromLonger(s: string, more: string, start: nat, f: nat)
    requires FirstFromAfter(s, start, f)
    ensures FirstFromAfter(s + more, start, f)
  {
    assert forall k :: start <= k <= f ==> (SpacedFrom(s + more, k) <==> SpacedFrom(s, k));
  }

  lemma ParenLonger(s: string, more: string, start: nat, paren: nat, f: nat)
    requires FirstFromAfter(s, start, f)
    requires ParenAfter(s + more, start, paren)
    ensures ParenAfter(s, start, paren)
  {
    assert (s + more)[f] == 'f';
    forall k | start <= k < paren ensures IsSpace(s[k]) {
      assert (s + more)[k] == s[k];
    }
  }

  lemma LeadsToLonger(s: string, more: string, i: nat, open: nat)
    requires LeadsTo(s, i, open)
    ensures LeadsTo(s + more, i, open)
  {
    KeywordsDiffer(s, i);
    var start := if WordAt(s, i, REQUIRE) then i + 7 else i + 6;
    WordAtLonger(s, more, i, if WordAt(s, i, REQUIRE) then REQUIRE else IMPORT);
    if HasCall(s, start, open) {
      var paren: nat :| CallOpens(s, start, paren, open);
      assert CallOpens(s + more, start, paren, open);
    } else {
      var f: nat :| FromOpens(s, start, f, open);
      FirstFromLonger(s, more, start, f);
      assert FromOpens(s + more, start, f, open);
      forall paren: nat ensures !ParenAfter(s + more, start, paren) {
        if ParenAfter(s + more, start, paren) { ParenLonger(s, more, start, paren, f); }
      }
    }
  }

  lemma SkippedInLonger(s: string, more: string, i: nat)
    requires WordAt(s, i, REQUIRE) || WordAt(s, i, IMPORT)
    ensures Skipped(s + more, i) <==> Skipped(s, i)
  {
    KeywordsDiffer(s + more, i);
    if WordAt(s, i, REQUIRE) {
      WordAtLonger(s, more, i, REQUIRE);
      ChainOfLonger(s, more, i);
    } else {
      KeywordsDiffer(s, i);
      WordAtLonger(s, more, i, IMPORT);
    }
  }

  lemma QuotedInLonger(s: string, more: string, open: nat, close: nat)
    requires QuotedBetween(s, open, close)
    ensures QuotedBetween(s + more, open, close)
    ensures (s + more)[open + 1..close] == s[open + 1..close]
  {}

  /** Appending text to the code never removes a dependency. */
  lemma AppendKeepsDependencies(s: string, more: string)
    ensures Scan(s, 0) <= Scan(s + more, 0)
  {
    forall name <- Scan(s, 0) ensures name in Scan(s + more, 0) {
      DependenciesExactly(s, name);
      var i: nat, open: nat, close: nat :|
        LiteralSpans(s, i, open, close) && !Skipped(s, i) && AsksFor(s[open + 1..close], name);
      LeadsToLonger(s, more, i, open);
      QuotedInLonger(s, more, open, close);
      SkippedInLonger(s, more, i);
      assert LiteralSpans(s + more, i, open, close);
      DependenciesExactly(s + more, name);
    }
  }

  // ---------- the names themselves ----------

  /** No returned name is empty, relative, absolute or a builtin. */
  lemma DependencyNames(s: string, name: string)
    requires name in Scan(s, 0)
    ensures |name| > 0 && name[0] != '.' && name[0] != '/' && name !in BUILTINS
  {
    ScanExactly(s, name);
    var i :| 0 <= i < |s| && Contributes(s, i, name);
    PackageExactly(LiteralAt(s, i).value, name);
  }
}
