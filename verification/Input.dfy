/**
 * `ParseFile` of main.go from the file's text onward: the text is cut into
 * fields at every newline, comma and slash (empty fields dropped, as
 * `strings.FieldsFunc` does), and the fields are taken three at a time as
 * owner, name and minimum version. One line of the input reads
 * `owner/name,minVersion`.
 *
 * Turning the version text into a version is the go-semver library's
 * `semver.New`, which is not part of this model; it is the `parse`
 * parameter here.
 */
module Input {
  import opened SemVer

  /** The characters that end a field. */
  predicate IsSep(c: char)
  {
    c == '\n' || c == ',' || c == '/'
  }

  predicate NoSep(w: string)
  {
    forall k :: 0 <= k < |w| ==> !IsSep(w[k])
  }

  /** The number of separators `s` starts with. */
  function LeadingSeps(s: string): (n: nat)
    ensures n <= |s|
    ensures forall k :: 0 <= k < n ==> IsSep(s[k])
    ensures n < |s| ==> !IsSep(s[n])
  {
    if s != [] && IsSep(s[0]) then 1 + LeadingSeps(s[1..]) else 0
  }

  /** The longest prefix of `s` without a separator. */
  function Word(s: string): (w: string)
    ensures |w| <= |s| && w == s[..|w|] && NoSep(w)
    ensures |w| < |s| ==> IsSep(s[|w|])
  {
    if s == [] || IsSep(s[0]) then [] else [s[0]] + Word(s[1..])
  }

  /** The fields of `s`: its maximal runs of non-separator characters, in order. */
  function Fields(s: string): (fs: seq<string>)
    decreases |s|
  {
    var t := s[LeadingSeps(s)..];
    if t == [] then []
    else
      var w := Word(t);
      [w] + Fields(t[|w|..])
  }

  /** Every field is non-empty and holds no separator. */
  lemma {:induction false} FieldsWellFormed(s: string)
    ensures forall i :: 0 <= i < |Fields(s)| ==> Fields(s)[i] != [] && NoSep(Fields(s)[i])
    decreases |s|
  {
    var t := s[LeadingSeps(s)..];
    if t != [] {
      var w := Word(t);
      FieldsWellFormed(t[|w|..]);
      assert Fields(s) == [w] + Fields(t[|w|..]);
    }
  }

  // ---------------------------------------------------------------------
  // Nothing but separators is lost, and nothing is reordered.

  /** The characters of `s` that are not separators. */
  function Strip(s: string): (r: string)
  {
    if s == [] then [] else (if IsSep(s[0]) then [] else [s[0]]) + Strip(s[1..])
  }

  function Concat(fs: seq<string>): (r: string)
  {
    if fs == [] then [] else fs[0] + Concat(fs[1..])
  }

  lemma {:induction false} StripAppend(a: string, b: string)
    ensures Strip(a + b) == Strip(a) + Strip(b)
  {
    if a == [] {
      assert a + b == b;
    } else {
      var h := if IsSep(a[0]) then [] else [a[0]];
      assert (a + b)[0] == a[0] && (a + b)[1..] == a[1..] + b;
      calc {
        Strip(a + b);
        h + Strip(a[1..] + b);
        { StripAppend(a[1..], b); }
        h + (Strip(a[1..]) + Strip(b));
        (h + Strip(a[1..])) + Strip(b);
        Strip(a) + Strip(b);
      }
    }
  }

  lemma {:induction false} StripNoSep(w: string)
    requires NoSep(w)
    ensures Strip(w) == w
  {
    if w != [] {
      StripNoSep(w[1..]);
      assert w == [w[0]] + w[1..];
    }
  }

  lemma {:induction false} StripAllSeps(s: string)
    requires forall k :: 0 <= k < |s| ==> IsSep(s[k])
    ensures Strip(s) == []
  {
    if s != [] {
      StripAllSeps(s[1..]);
    }
  }

  /** Joining the fields back together gives the text without its separators. */
  lemma {:induction false} FieldsKeepText(s: string)
    ensures Concat(Fields(s)) == Strip(s)
    decreases |s|
  {
    var t := s[LeadingSeps(s)..];
    StripSkipsSeps(s);
    if t != [] {
      var w := Word(t);
      var rest := t[|w|..];
      StripWordThenRest(t);
      FieldsKeepText(rest);
      ConcatCons(w, Fields(rest));
    }
  }

  /** Leading separators contribute nothing to the stripped text. */
  lemma StripSkipsSeps(s: string)
    ensures Strip(s) == Strip(s[LeadingSeps(s)..])
  {
    var d := LeadingSeps(s);
    assert s == s[..d] + s[d..];
    StripAppend(s[..d], s[d..]);
    StripAllSeps(s[..d]);
  }

  /** Stripping keeps the first word whole. */
  lemma StripWordThenRest(t: string)
    ensures Strip(t) == Word(t) + Strip(t[|Word(t)|..])
  {
    var w := Word(t);
    assert t == w + t[|w|..];
    StripAppend(w, t[|w|..]);
    StripNoSep(w);
  }

  lemma ConcatCons(w: string, fs: seq<string>)
    ensures Concat([w] + fs) == w + Concat(fs)
  {
    assert ([w] + fs)[1..] == fs;
  }

  // ---------------------------------------------------------------------
  // Round trip: fields joined by separators come back as they were.

  /** The longest separator-free prefix of a field followed by a separator is that field. */
  lemma WordOfField(w: string, rest: string)
    requires NoSep(w)
    requires rest == [] || IsSep(rest[0])
    ensures Word(w + rest) == w
  {
    var x := Word(w + rest);
    assert x == (w + rest)[..|x|];
    assert (w + rest)[..|w|] == w;
  }

  /** A leading separator does not change the fields. */
  lemma FieldsSkipSep(c: char, rest: string)
    requires IsSep(c)
    ensures Fields([c] + rest) == Fields(rest)
  {
    assert ([c] + rest)[1..] == rest;
  }

  /** A field followed by a separator is the first field. */
  lemma FieldsCons(w: string, c: char, rest: string)
    requires w != [] && NoSep(w) && IsSep(c)
    ensures Fields(w + [c] + rest) == [w] + Fields(rest)
  {
    var s := w + [c] + rest;
    assert s == w + ([c] + rest);
    WordOfField(w, [c] + rest);
    assert s[|w|..] == [c] + rest;
    FieldsSkipSep(c, rest);
  }

  /** A field that ends the text is the last field. */
  lemma FieldsOfWord(w: string)
    requires w != [] && NoSep(w)
    ensures Fields(w) == [w]
  {
    WordOfField(w, []);
    assert w + [] == w;
  }

  /** One line of the input file. */
  datatype Line = Line(owner: string, name: string, minVersion: string)

  predicate WellFormedLine(l: Line)
  {
    l.owner != [] && NoSep(l.owner) && l.name != [] && NoSep(l.name) && l.minVersion != [] && NoSep(l.minVersion)
  }

  /** The text of one line without its newline: `owner/name,minVersion`. */
  function LastLineText(l: Line): (r: string)
  {
    l.owner + "/" + l.name + "," + l.minVersion
  }

  /** The text of one line: `owner/name,minVersion` and a newline. */
  function LineText(l: Line): (r: string)
  {
    LastLineText(l) + "\n"
  }

  /** The text of a file with one newline-terminated line per entry. */
  function Render(lines: seq<Line>): (r: string)
  {
    if lines == [] then [] else LineText(lines[0]) + Render(lines[1..])
  }

  /** The three fields of each line, line after line. */
  function Tokens(lines: seq<Line>): (fs: seq<string>)
    ensures |fs| == 3 * |lines|
  {
    if lines == [] then [] else [lines[0].owner] + ([lines[0].name] + ([lines[0].minVersion] + Tokens(lines[1..])))
  }

  lemma FieldsOfLine(l: Line, rest: string)
    requires WellFormedLine(l)
    ensures Fields(LineText(l) + rest) == [l.owner] + ([l.name] + ([l.minVersion] + Fields(rest)))
  {
    var tail := l.minVersion + ['\n'] + rest;
    var mid := l.name + [','] + tail;
    assert LineText(l) + rest == l.owner + ['/'] + mid;
    FieldsCons(l.owner, '/', mid);
    assert Fields(LineText(l) + rest) == [l.owner] + Fields(mid);
    FieldsCons(l.name, ',', tail);
    assert Fields(mid) == [l.name] + Fields(tail);
    FieldsCons(l.minVersion, '\n', rest);
    assert Fields(tail) == [l.minVersion] + Fields(rest);
  }

  /** A last line without its newline splits into its three fields. */
  lemma FieldsOfLastLine(l: Line)
    requires WellFormedLine(l)
    ensures Fields(LastLineText(l)) == [l.owner] + ([l.name] + [l.minVersion])
  {
    assert LastLineText(l) == l.owner + ['/'] + (l.name + [','] + l.minVersion);
    FieldsCons(l.owner, '/', l.name + [','] + l.minVersion);
    FieldsCons(l.name, ',', l.minVersion);
    FieldsOfWord(l.minVersion);
  }

  /** Rendered lines followed by any text split into the lines' fields, then that text's fields. */
  lemma {:induction false} FieldsOfRenderThen(lines: seq<Line>, rest: string)
    requires forall k :: 0 <= k < |lines| ==> WellFormedLine(lines[k])
    ensures Fields(Render(lines) + rest) == Tokens(lines) + Fields(rest)
  {
    if lines == [] {
      assert Render(lines) + rest == rest;
    } else {
      var more := Render(lines[1..]) + rest;
      assert Render(lines) + rest == LineText(lines[0]) + more;
      FieldsOfRenderThen(lines[1..], rest);
      FieldsOfLine(lines[0], more);
      ConsThreeAppend(lines[0].owner, lines[0].name, lines[0].minVersion, Tokens(lines[1..]), Fields(rest));
    }
  }

  /** A file rendered line by line splits into the lines' fields, in order. */
  lemma FieldsOfRender(lines: seq<Line>)
    requires forall k :: 0 <= k < |lines| ==> WellFormedLine(lines[k])
    ensures Fields(Render(lines)) == Tokens(lines)
  {
    FieldsOfRenderThen(lines, []);
    assert Render(lines) + [] == Render(lines);
  }

  lemma ConsThreeAppend(a: string, b: string, c: string, t: seq<string>, f: seq<string>)
    ensures [a] + ([b] + ([c] + (t + f))) == ([a] + ([b] + ([c] + t))) + f
  {
  }

  lemma TokensOne(l: Line)
    ensures Tokens([l]) == [l.owner] + ([l.name] + [l.minVersion])
  {
    assert [l][1..] == [];
  }

  lemma {:induction false} TokensAppend(a: seq<Line>, b: seq<Line>)
    ensures Tokens(a + b) == Tokens(a) + Tokens(b)
  {
    if a == [] {
      assert a + b == b;
    } else {
      assert (a + b)[0] == a[0] && (a + b)[1..] == a[1..] + b;
      TokensAppend(a[1..], b);
    }
  }

  /**
   * A file whose last line has no newline splits like the same file with
   * the newline: line after line, three fields each.
   */
  lemma FieldsOfUnterminated(lines: seq<Line>, last: Line)
    requires forall k :: 0 <= k < |lines| ==> WellFormedLine(lines[k])
    requires WellFormedLine(last)
    ensures Fields(Render(lines) + LastLineText(last)) == Tokens(lines + [last])
  {
    FieldsOfRenderThen(lines, LastLineText(last));
    FieldsOfLastLine(last);
    TokensOne(last);
    TokensAppend(lines, [last]);
  }

  // ---------------------------------------------------------------------
  // Repositories

  /** `Path [2]string` of main.go: owner and repository name. */
  datatype Path = Path(owner: string, name: string)

  datatype Repo = Repo(path: Path, minVersion: Version)

  /** Fields taken three at a time: repository k comes from fields 3k, 3k+1, 3k+2. */
  function Repos(fields: seq<string>, parse: string -> Version): (r: seq<Repo>)
    requires |fields| % 3 == 0
    ensures |r| == |fields| / 3
    ensures forall k :: 0 <= k < |r| ==>
              r[k] == Repo(Path(fields[3 * k], fields[3 * k + 1]), parse(fields[3 * k + 2]))
  {
    if fields == [] then []
    else [Repo(Path(fields[0], fields[1]), parse(fields[2]))] + Repos(fields[3..], parse)
  }

  /** The fields of rendered lines, three at a time, are those lines' repositories. */
  lemma {:induction false} ReposOfTokens(lines: seq<Line>, parse: string -> Version)
    ensures |Repos(Tokens(lines), parse)| == |lines|
    ensures forall k :: 0 <= k < |lines| ==>
              Repos(Tokens(lines), parse)[k] == Repo(Path(lines[k].owner, lines[k].name), parse(lines[k].minVersion))
  {
    if lines != [] {
      var l := lines[0];
      var fs := Tokens(lines);
      assert fs[..3] == [l.owner, l.name, l.minVersion] && fs[3..] == Tokens(lines[1..]);
      ReposOfTokens(lines[1..], parse);
    }
  }

  /** A file written one `owner/name,minVersion` line per repository reads back as those repositories. */
  lemma ReposOfRender(lines: seq<Line>, parse: string -> Version)
    requires forall k :: 0 <= k < |lines| ==> WellFormedLine(lines[k])
    ensures |Fields(Render(lines))| % 3 == 0
    ensures |Repos(Fields(Render(lines)), parse)| == |lines|
    ensures forall k :: 0 <= k < |lines| ==>
              Repos(Fields(Render(lines)), parse)[k]
              == Repo(Path(lines[k].owner, lines[k].name), parse(lines[k].minVersion))
  {
    FieldsOfRender(lines);
    ReposOfTokens(lines, parse);
  }

  /** The same holds when the last line of the file has no newline. */
  lemma ReposOfUnterminated(lines: seq<Line>, last: Line, parse: string -> Version)
    requires forall k :: 0 <= k < |lines| ==> WellFormedLine(lines[k])
    requires WellFormedLine(last)
    ensures |Fields(Render(lines) + LastLineText(last))| % 3 == 0
    ensures |Repos(Fields(Render(lines) + LastLineText(last)), parse)| == |lines| + 1
    ensures forall k :: 0 <= k < |lines| + 1 ==>
              Repos(Fields(Render(lines) + LastLineText(last)), parse)[k]
              == Repo(Path((lines + [last])[k].owner, (lines + [last])[k].name), parse((lines + [last])[k].minVersion))
  {
    FieldsOfUnterminated(lines, last);
    ReposOfTokens(lines + [last], parse);
  }

  /**
   * Splits `text` into fields and fills a fresh array with one repository per
   * three fields. The Go code indexes past the fields when their number is
   * not a multiple of three, hence the precondition.
   */
  method ParseFile(text: string, parse: string -> Version) returns (fileSlice: array<Repo>)
    requires |Fields(text)| % 3 == 0
    ensures fresh(fileSlice)
    ensures fileSlice[..] == Repos(Fields(text), parse)
  {
    var intermediate := Fields(text);
    ghost var repos := Repos(intermediate, parse);
    // Every slot is overwritten below; in the Go code the slots start out nil.
    fileSlice := new Repo[|intermediate| / 3](_ => Repo(Path([], []), Version(0, 0, 0, [])));
    var i := 0;
    ghost var done := 0;
    while i < |intermediate|
      invariant 0 <= done <= |repos| && i == 3 * done
      invariant forall k :: 0 <= k < done ==> fileSlice[k] == repos[k]
    {
      assert i / 3 == done;
      fileSlice[i / 3] := Repo(Path(intermediate[i], intermediate[i + 1]), parse(intermediate[i + 2]));
      i, done := i + 3, done + 1;
    }
  }
}
