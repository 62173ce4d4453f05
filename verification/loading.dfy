/**
 The pure parts of the input loading: `load_lines` turns a text file into the
 set of its stripped, non-blank lines, and `load_contracts` keeps the contract
 bindings whose initialisation succeeded.
 */
module Loading {
  import opened Wrappers

  /** What opening and reading a text file gives: no such file, a failure
      while reading it (an OS or decoding error), or its lines. */
  datatype FileRead = Missing | Unreadable | Lines(lines: seq<string>)

  /** The characters Python's `str.strip()` removes when given no argument:
      those for which `str.isspace()` holds. */
  const Whitespace: set<char> :=
    { '\t', '\n', '\U{000B}', '\U{000C}', '\r', '\U{001C}', '\U{001D}', '\U{001E}', '\U{001F}', ' ',
      '\U{0085}', '\U{00A0}', '\U{1680}', '\U{2000}', '\U{2001}', '\U{2002}', '\U{2003}', '\U{2004}',
      '\U{2005}', '\U{2006}', '\U{2007}', '\U{2008}', '\U{2009}', '\U{200A}', '\U{2028}', '\U{2029}',
      '\U{202F}', '\U{205F}', '\U{3000}' }

  /** Every character of `s` is in `chars`. */
  predicate AllIn(s: string, chars: set<char>) {
    forall k :: 0 <= k < |s| ==> s[k] in chars
  }

  /** Neither end of `s` is in `chars`. */
  predicate StrippedOf(s: string, chars: set<char>) {
    s == [] || (s[0] !in chars && s[|s| - 1] !in chars)
  }

  /** `r` occurs in `s` at offset `i`, and everything before and after that
      occurrence is made of `chars`. */
  predicate Trimmed(s: string, i: nat, r: string, chars: set<char>) {
    && i + |r| <= |s|
    && s[i..i + |r|] == r
    && AllIn(s[..i], chars)
    && AllIn(s[i + |r|..], chars)
  }

  /** `s.lstrip(chars)`. */
  function StripLeft(s: string, chars: set<char>): (r: string)
    ensures |r| <= |s| && r == s[|s| - |r|..]
    ensures AllIn(s[..|s| - |r|], chars)
    ensures r == [] || r[0] !in chars
  {
    if |s| > 0 && s[0] in chars then
      var r := StripLeft(s[1..], chars);
      assert s[1..][|s| - 1 - |r|..] == s[|s| - |r|..];
      assert forall k :: 1 <= k < |s| - |r| ==> s[k] == s[1..][..|s| - 1 - |r|][k - 1];
      r
    else s
  }

  /** `s.rstrip(chars)`. */
  function StripRight(s: string, chars: set<char>): (r: string)
    ensures |r| <= |s| && r == s[..|r|]
    ensures AllIn(s[|r|..], chars)
    ensures r == [] || r[|r| - 1] !in chars
  {
    if |s| > 0 && s[|s| - 1] in chars then
      var r := StripRight(s[..|s| - 1], chars);
      assert s[..|s| - 1][..|r|] == s[..|r|];
      assert forall k :: |r| <= k < |s| - 1 ==> s[k] == s[..|s| - 1][|r|..][k - |r|];
      r
    else s
  }

  /** Python's `s.strip(chars)`: the result has no character of `chars` at
      either end and is what remains of `s` once margins made of `chars` are
      cut off. */
  function StripChars(s: string, chars: set<char>): (r: string)
    ensures StrippedOf(r, chars)
  {
    StripShape(s, chars);
    StripRight(StripLeft(s, chars), chars)
  }

  /** What `StripChars` returns is a core of `s` between two margins made of
      `chars`. With `StripUnique`, the core is the only such one that is
      itself stripped. */
  lemma StripTrims(s: string, chars: set<char>)
    ensures exists i :: Trimmed(s, i, StripChars(s, chars), chars)
  {
    StripShape(s, chars);
    assert Trimmed(s, |s| - |StripLeft(s, chars)|, StripChars(s, chars), chars);
  }

  /** The margins `StripLeft` and `StripRight` cut off, located in `s`. */
  lemma StripShape(s: string, chars: set<char>)
    ensures StrippedOf(StripRight(StripLeft(s, chars), chars), chars)
    ensures Trimmed(s, |s| - |StripLeft(s, chars)|, StripRight(StripLeft(s, chars), chars), chars)
  {
    var left := StripLeft(s, chars);
    var r := StripRight(left, chars);
    TrimmedInside(s, |s| - |left|, left, r, chars);
    if r != [] {
      assert r[0] == left[0];
    }
  }

  /** Cutting a margin off the front of `s` and then a margin off the back
      of what remains leaves a core trimmed out of `s`. */
  lemma TrimmedInside(s: string, i: nat, left: string, r: string, chars: set<char>)
    requires i <= |s| && s[i..] == left && AllIn(s[..i], chars)
    requires |r| <= |left| && left[..|r|] == r && AllIn(left[|r|..], chars)
    ensures Trimmed(s, i, r, chars)
  {
    assert s[i..i + |r|] == left[..|r|];
    assert s[i + |r|..] == left[|r|..];
  }

  /** `StripChars` has a single possible answer: a core stripped of `chars`
      between two margins made of `chars` is exactly what it returns. */
  lemma {:induction false} StripUnique(margin: string, core: string, tail: string, chars: set<char>)
    requires AllIn(margin, chars) && AllIn(tail, chars) && StrippedOf(core, chars)
    ensures StripChars(margin + core + tail, chars) == core
  {
    var s := margin + core + tail;
    if core == [] {
      assert s == (margin + tail) + [];
      StripLeftUnique(margin + tail, [], chars);
    } else {
      assert s == margin + (core + tail);
      StripLeftUnique(margin, core + tail, chars);
      StripRightUnique(core, tail, chars);
    }
  }

  lemma {:induction false} StripLeftUnique(margin: string, rest: string, chars: set<char>)
    requires AllIn(margin, chars)
    requires rest == [] || rest[0] !in chars
    ensures StripLeft(margin + rest, chars) == rest
    decreases |margin|
  {
    if |margin| == 0 {
      assert margin + rest == rest;
    } else {
      assert (margin + rest)[1..] == margin[1..] + rest;
      StripLeftUnique(margin[1..], rest, chars);
    }
  }

  lemma {:induction false} StripRightUnique(rest: string, tail: string, chars: set<char>)
    requires AllIn(tail, chars)
    requires rest == [] || rest[|rest| - 1] !in chars
    ensures StripRight(rest + tail, chars) == rest
    decreases |tail|
  {
    var s := rest + tail;
    if |tail| == 0 {
      assert s == rest;
    } else {
      assert s[..|s| - 1] == rest + tail[..|tail| - 1];
      StripRightUnique(rest, tail[..|tail| - 1], chars);
    }
  }

  /** Stripping twice is stripping once. */
  lemma StripIdempotent(s: string, chars: set<char>)
    ensures StripChars(StripChars(s, chars), chars) == StripChars(s, chars)
  {
    var r := StripChars(s, chars);
    StripUnique([], r, [], chars);
    assert [] + r + [] == r;
  }

  /** A string strips to nothing exactly when it is made of `chars` only. */
  lemma StripOfBlank(s: string, chars: set<char>)
    ensures StripChars(s, chars) == [] <==> AllIn(s, chars)
  {
    if AllIn(s, chars) {
      StripUnique(s, [], [], chars);
      assert s + [] + [] == s;
    } else {
      StripTrims(s, chars);
    }
  }

  /** Python's `s.strip()` with no argument: `StripChars` over `Whitespace`. */
  function Strip(s: string): (r: string)
    ensures StrippedOf(r, Whitespace)
  {
    StripChars(s, Whitespace)
  }

  /** A line made of whitespace only (or empty). */
  predicate Blank(s: string) {
    AllIn(s, Whitespace)
  }

  /** `StripIdempotent` and `StripOfBlank` for every line at once, with
      whitespace as the stripped characters. */
  lemma StripLaws()
    ensures forall s :: Strip(Strip(s)) == Strip(s) && (Strip(s) == [] <==> Blank(s))
  {
    forall s: string
      ensures Strip(Strip(s)) == Strip(s) && (Strip(s) == [] <==> Blank(s))
    {
      StripIdempotent(s, Whitespace);
      StripOfBlank(s, Whitespace);
    }
  }

  /** The set comprehension of `load_lines`: every line stripped, blank ones
      dropped. */
  function Normalise(lines: seq<string>): (names: set<string>)
    ensures forall x :: x in names ==> x != [] && Strip(x) == x
    ensures forall x :: x in names ==> exists line :: line in lines && Strip(line) == x
  {
    StripLaws();
    set line | line in lines && Strip(line) != [] :: Strip(line)
  }

  /** No non-blank line is lost: its stripped form is in the set. */
  lemma NormaliseKeeps(lines: seq<string>, line: string)
    requires line in lines && !Blank(line)
    ensures Strip(line) in Normalise(lines)
  {
    StripOfBlank(line, Whitespace);
  }

  /** Normalising the lines of an already normalised set changes nothing,
      whatever order those lines come in. */
  lemma NormaliseIdempotent(lines: seq<string>, again: seq<string>)
    requires forall x :: x in again <==> x in Normalise(lines)
    ensures Normalise(again) == Normalise(lines)
  {
    var first := Normalise(lines);
    forall x | x in first
      ensures x in Normalise(again)
    {
      StripOfBlank(x, Whitespace);
      NormaliseKeeps(again, x);
    }
  }

  /** `load_lines(path)`: no set for a missing or unreadable file, otherwise
      the normalised lines. */
  function LoadLines(file: FileRead): (names: set<string>)
    ensures file.Lines? ==> names == Normalise(file.lines)
    ensures !file.Lines? ==> names == {}
    ensures forall x :: x in names ==> x != [] && StrippedOf(x, Whitespace)
  {
    match file
    case Missing => {}
    case Unreadable => {}
    case Lines(lines) => Normalise(lines)
  }

  /** `load_contracts`: the bindings whose initialisation succeeded, in the
      order they were initialised. */
  function LoadContracts<C>(inits: seq<Option<C>>): (valid: seq<C>)
    ensures |valid| <= |inits|
    ensures forall k :: 0 <= k < |valid| ==> Some(valid[k]) in inits
    ensures valid == [] <==> forall i :: 0 <= i < |inits| ==> inits[i] == None
  {
    if |inits| == 0 then []
    else
      var rest := LoadContracts(inits[1..]);
      assert forall i :: 1 <= i < |inits| ==> inits[i] == inits[1..][i - 1];
      match inits[0]
      case Some(c) => [c] + rest
      case None => rest
  }

  /** No successful binding is dropped. */
  lemma {:induction false} LoadContractsKeeps<C>(inits: seq<Option<C>>, i: nat)
    requires i < |inits| && inits[i].Some?
    ensures inits[i].value in LoadContracts(inits)
  {
    if i > 0 {
      LoadContractsKeeps(inits[1..], i - 1);
    }
  }

  /** `load_contracts` keeps the relative order of the successful bindings:
      filtering a concatenation is concatenating the filtered parts. */
  lemma {:induction false} LoadContractsAppend<C>(xs: seq<Option<C>>, ys: seq<Option<C>>)
    ensures LoadContracts(xs + ys) == LoadContracts(xs) + LoadContracts(ys)
  {
    if |xs| == 0 {
      assert xs + ys == ys;
    } else {
      assert (xs + ys)[1..] == xs[1..] + ys;
      LoadContractsAppend(xs[1..], ys);
    }
  }
}
