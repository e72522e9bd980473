/** The credential-line parser of `InputEngine.load_credentials`
    (input_engine.py), over a sequence of lines instead of a file. */
module InputEngine {
  import opened Wrappers
  import opened Text

  datatype Credential = Credential(username: string, password: string)

  /** The delimiters tried, in this order, when the caller gave none. */
  const DefaultDelimiters: seq<string> := [":", ",", ";", "|"]

  /** `[self.delimiter] if self.delimiter else [':', ',', ';', '|']`: only a
      truthy delimiter (present and non-empty) replaces the defaults. */
  function Candidates(delimiter: Option<string>): (ds: seq<string>)
    ensures |ds| > 0 && forall k | 0 <= k < |ds| :: ds[k] != []
  {
    if delimiter.Some? && delimiter.value != "" then [delimiter.value] else DefaultDelimiters
  }

  /** The index of the first delimiter in `ds` that occurs in `s`: the list
      order decides, not the position in `s`. */
  function FirstPresent(s: string, ds: seq<string>): (r: Option<nat>)
    ensures r.Some? ==> r.value < |ds| && Contains(s, ds[r.value])
    ensures r.Some? ==> forall j | 0 <= j < r.value :: !Contains(s, ds[j])
    ensures r.None? ==> forall j | 0 <= j < |ds| :: !Contains(s, ds[j])
  {
    if ds == [] then None
    else if Contains(s, ds[0]) then Some(0)
    else match FirstPresent(s, ds[1..])
      case None => None
      case Some(k) => Some(k + 1)
  }

  /** `parts` after the inner loop: `None` when no candidate occurs in the
      line, else the line split once at the first candidate present. */
  function SplitAtFirst(clean: string, ds: seq<string>): (parts: Option<seq<string>>)
    requires forall k | 0 <= k < |ds| :: ds[k] != []
    ensures parts.None? <==> forall j | 0 <= j < |ds| :: !Contains(clean, ds[j])
    ensures parts.Some? ==> |parts.value| == 2
  {
    match FirstPresent(clean, ds)
    case None => None
    case Some(k) => Some(SplitOnce(clean, ds[k]))
  }

  /** What one line yields: strip it, skip it when blank, split it once at
      the first delimiter present, strip both halves and drop the line when
      either half is empty. */
  function ParsedLine(line: string, delimiter: Option<string>): Option<Credential> {
    var clean := Strip(line);
    if clean == "" then None
    else
      match SplitAtFirst(clean, Candidates(delimiter))
      case None => None
      case Some(parts) =>
        if |parts| != 2 then None
        else
          var username, password := Strip(parts[0]), Strip(parts[1]);
          if username == "" || password == "" then None
          else Some(Credential(username, password))
  }

  /** The values `f` yields on `xs`, in order, skipping the `None`s. */
  function FilterMap<A, B>(f: A -> Option<B>, xs: seq<A>): seq<B>
    decreases |xs|
  {
    if xs == [] then []
    else
      var init := FilterMap(f, xs[..|xs| - 1]);
      match f(xs[|xs| - 1])
      case None => init
      case Some(y) => init + [y]
  }

  /** The pairs a whole sequence of lines yields, in line order. */
  function ParsedLines(lines: seq<string>, delimiter: Option<string>): seq<Credential> {
    FilterMap(line => ParsedLine(line, delimiter), lines)
  }

  /** The inner loop of `load_credentials`: try each delimiter in turn and
      split at the first one that occurs in the line. */
  method SplitAtFirstDelimiter(clean: string, delimiters: seq<string>) returns (parts: Option<seq<string>>)
    requires forall k | 0 <= k < |delimiters| :: delimiters[k] != []
    ensures parts == SplitAtFirst(clean, delimiters)
  {
    parts := None;
    ghost var chosen := 0;
    for k := 0 to |delimiters|
      invariant parts.None? ==> forall j | 0 <= j < k :: !Contains(clean, delimiters[j])
    {
      if Contains(clean, delimiters[k]) {
        parts := Some(SplitOnce(clean, delimiters[k]));
        chosen := k;
        break;
      }
    }
    assert parts.Some? ==>
      chosen < |delimiters| && Contains(clean, delimiters[chosen]) &&
      (forall j | 0 <= j < chosen :: !Contains(clean, delimiters[j])) &&
      parts.value == SplitOnce(clean, delimiters[chosen]);
  }

  /** The body of the generator's loop for one line. */
  method ParseLine(line: string, delimiter: Option<string>) returns (pair: Option<Credential>)
    ensures pair == ParsedLine(line, delimiter)
  {
    var clean := Strip(line);
    if clean == "" {
      return None;
    }
    var delimiters := Candidates(delimiter);
    var parts := SplitAtFirstDelimiter(clean, delimiters);
    if parts.None? || |parts.value| != 2 {
      return None;
    }
    var username := Strip(parts.value[0]);
    var password := Strip(parts.value[1]);
    if username == "" || password == "" {
      return None;
    }
    pair := Some(Credential(username, password));
  }

  /** `load_credentials`: the generator's output collected in order. */
  method LoadCredentials(lines: seq<string>, delimiter: Option<string>) returns (pairs: seq<Credential>)
    ensures pairs == ParsedLines(lines, delimiter)
  {
    pairs := [];
    for i := 0 to |lines|
      invariant pairs == ParsedLines(lines[..i], delimiter)
    {
      assert lines[..i + 1][..i] == lines[..i];
      var pair := ParseLine(lines[i], delimiter);
      if pair.None? {
        continue;
      }
      pairs := pairs + [pair.value];
    }
    assert lines[..|lines|] == lines;
  }

  // ---------------------------------------------------------------------
  // Properties of one line

  /** A line that is empty after `strip()` yields nothing. */
  lemma BlankLineSkipped(line: string, delimiter: Option<string>)
    requires AllSpace(line)
    ensures ParsedLine(line, delimiter) == None
  {
    StripEmptyIff(line);
  }

  /** The delimiter a line is split at, if any. */
  function ChosenDelimiter(line: string, delimiter: Option<string>): Option<string> {
    match FirstPresent(Strip(line), Candidates(delimiter))
    case None => None
    case Some(k) => Some(Candidates(delimiter)[k])
  }

  /** A produced pair has a non-empty username and password, neither with
      whitespace at its ends, and the line held a delimiter; the username
      holds neither that delimiter nor any listed before it, and the
      password holds none listed before it (it may hold the chosen one). */
  lemma ParsedPairShape(line: string, delimiter: Option<string>)
    requires ParsedLine(line, delimiter).Some?
    ensures var c := ParsedLine(line, delimiter).value;
      c.username != "" && c.password != "" && NoEdgeSpace(c.username) && NoEdgeSpace(c.password)
    ensures ChosenDelimiter(line, delimiter).Some?
    ensures var c, ds, k := ParsedLine(line, delimiter).value, Candidates(delimiter),
                            FirstPresent(Strip(line), Candidates(delimiter)).value;
      (forall j | 0 <= j <= k :: !Contains(c.username, ds[j])) &&
      (forall j | 0 <= j < k :: !Contains(c.password, ds[j]))
  {
    var clean, ds := Strip(line), Candidates(delimiter);
    var k := FirstPresent(clean, ds).value;
    var parts := SplitOnce(clean, ds[k]);
    HalvesAvoidEarlier(clean, ds, k, parts[0], parts[1]);
  }

  /** The two halves of a split at `ds[k]`, the first listed delimiter that
      occurs, hold none of the delimiters listed before it; the head does
      not hold `ds[k]` either. */
  lemma HalvesAvoidEarlier(clean: string, ds: seq<string>, k: nat, head: string, tail: string)
    requires k < |ds| && clean == head + ds[k] + tail && !Contains(head, ds[k])
    requires forall j | 0 <= j < k :: !Contains(clean, ds[j])
    ensures forall j | 0 <= j <= k :: !Contains(Strip(head), ds[j])
    ensures forall j | 0 <= j < k :: !Contains(Strip(tail), ds[j])
  {
    assert head == clean[..|head|];
    var a := |head| + |ds[k]|;
    assert tail == clean[a..|clean|];
    forall j | 0 <= j <= k ensures !Contains(Strip(head), ds[j]) {
      if Contains(Strip(head), ds[j]) {
        StripInside(head, ds[j]);
        if j < k {
          ContainsSlice(clean, 0, |head|, ds[j]);
        }
        assert false;
      }
    }
    forall j | 0 <= j < k ensures !Contains(Strip(tail), ds[j]) {
      if Contains(Strip(tail), ds[j]) {
        StripInside(tail, ds[j]);
        ContainsSlice(clean, a, |clean|, ds[j]);
        assert false;
      }
    }
  }

  /** The two examples of the delimiter rules: the list order, not the
      position, picks `:` over `,`; and the split happens once, so the
      password keeps later delimiters. */
  lemma ListOrderExample()
    ensures ParsedLine("a,b:c", None) == Some(Credential("a,b", "c"))
  {
    var line := "a,b:c";
    assert line[0..1] == "a";
    assert line[1..2] == ",";
    assert line[2..3] == "b";
    assert line[3..4] == ":";
    assert Find(line, ":") == Some(3);
    assert FirstPresent(line, DefaultDelimiters) == Some(0);
    assert line[..3] == "a,b" && line[4..] == "c";
    StripNoEdge(line);
    StripNoEdge("a,b");
    StripNoEdge("c");
  }

  lemma SplitOnceExample()
    ensures ParsedLine("u:p:q", None) == Some(Credential("u", "p:q"))
  {
    var line := "u:p:q";
    assert line[0..1] == "u" && line[1..2] == ":";
    assert Find(line, ":") == Some(1);
    assert FirstPresent(line, DefaultDelimiters) == Some(0);
    assert line[..1] == "u" && line[2..] == "p:q";
    StripNoEdge(line);
    StripNoEdge("u");
    StripNoEdge("p:q");
  }

  /** A truthy explicit delimiter is the only one tried: a line without it
      yields nothing even if it holds a default delimiter. */
  lemma ExplicitDelimiterOnly(line: string, d: string)
    requires d != "" && !Contains(Strip(line), d)
    ensures ParsedLine(line, Some(d)) == None
  {
  }

  /** An empty explicit delimiter is falsy, so the defaults apply. */
  lemma EmptyDelimiterIsDefault(line: string)
    ensures ParsedLine(line, Some("")) == ParsedLine(line, None)
  {
  }

  /** Round trip: joining a clean username without `:` and a clean password
      with `:` gives a line that parses back to the pair. */
  lemma RoundTripDefault(u: string, p: string)
    requires u != "" && NoEdgeSpace(u) && !Contains(u, ":")
    requires p != "" && NoEdgeSpace(p)
    ensures ParsedLine(u + ":" + p, None) == Some(Credential(u, p))
  {
    assert ":"[..0] == [] && u + [] == u;
    RoundTrip(u, ":", p);
  }

  /** Round trip with an explicit delimiter `d`, provided no occurrence of
      `d` starts inside `u` (for a one-character `d`: `u` lacks `d`). */
  lemma RoundTripExplicit(u: string, d: string, p: string)
    requires d != "" && !Contains(u + d[..|d| - 1], d)
    requires u != "" && NoEdgeSpace(u)
    requires p != "" && NoEdgeSpace(p)
    ensures ParsedLine(u + d + p, Some(d)) == Some(Credential(u, p))
  {
    RoundTrip(u, d, p);
  }

  lemma RoundTrip(u: string, d: string, p: string)
    requires d != "" && !Contains(u + d[..|d| - 1], d)
    requires u != "" && NoEdgeSpace(u)
    requires p != "" && NoEdgeSpace(p)
    ensures Strip(u + d + p) == u + d + p
    ensures SplitOnce(u + d + p, d) == [u, p] && Strip(u) == u && Strip(p) == p
  {
    var line := u + d + p;
    assert line[0] == u[0] && line[|line| - 1] == p[|p| - 1];
    StripNoEdge(line);
    StripNoEdge(u);
    StripNoEdge(p);
    SplitOnceAfter(u, d, p);
  }

  // ---------------------------------------------------------------------
  // Properties of the whole sequence

  /** Filtering distributes over concatenation. */
  lemma {:induction false} FilterMapAppend<A, B>(f: A -> Option<B>, a: seq<A>, b: seq<A>)
    ensures FilterMap(f, a + b) == FilterMap(f, a) + FilterMap(f, b)
    decreases |b|
  {
    if b == [] {
      assert a + b == a;
    } else {
      var b0 := b[..|b| - 1];
      assert (a + b)[..|a + b| - 1] == a + b0;
      assert (a + b)[|a + b| - 1] == b[|b| - 1];
      FilterMapAppend(f, a, b0);
    }
  }

  /** Filtering keeps order and takes at most one value per element: there
      is a strictly increasing list of indices, holding exactly the elements
      on which `f` yields a value, whose values are the output in order. */
  lemma {:induction false} FilterMapOrigin<A, B>(f: A -> Option<B>, xs: seq<A>) returns (idx: seq<nat>)
    ensures var ys := FilterMap(f, xs);
      |idx| == |ys| &&
      (forall j | 0 <= j < |idx| :: idx[j] < |xs| && f(xs[idx[j]]) == Some(ys[j])) &&
      (forall j, k | 0 <= j < k < |idx| :: idx[j] < idx[k]) &&
      (forall i | 0 <= i < |xs| :: f(xs[i]).Some? <==> i in idx)
    decreases |xs|
  {
    if xs == [] {
      idx := [];
    } else {
      var n := |xs| - 1;
      var init := xs[..n];
      var prev := FilterMapOrigin(f, init);
      var ys0 := FilterMap(f, init);
      assert forall i | 0 <= i < n :: init[i] == xs[i];
      if f(xs[n]).Some? {
        idx := prev + [n];
        assert FilterMap(f, xs) == ys0 + [f(xs[n]).value];
      } else {
        idx := prev;
        assert FilterMap(f, xs) == ys0;
      }
      assert forall j | 0 <= j < |prev| :: idx[j] == prev[j];
      forall i | 0 <= i < |xs| ensures f(xs[i]).Some? <==> i in idx {
        if i < n {
          assert f(init[i]).Some? <==> i in prev;
          assert i in idx <==> i in prev;
        }
      }
    }
  }

  /** At most one value per element. */
  lemma {:induction false} FilterMapBound<A, B>(f: A -> Option<B>, xs: seq<A>)
    ensures |FilterMap(f, xs)| <= |xs|
    decreases |xs|
  {
    if xs != [] {
      FilterMapBound(f, xs[..|xs| - 1]);
    }
  }

  /** Parsing distributes over concatenation of the input. */
  lemma ParsedLinesAppend(a: seq<string>, b: seq<string>, delimiter: Option<string>)
    ensures ParsedLines(a + b, delimiter) == ParsedLines(a, delimiter) + ParsedLines(b, delimiter)
  {
    FilterMapAppend(line => ParsedLine(line, delimiter), a, b);
  }

  /** The output keeps line order and has one pair per line that parses and
      none for the others. */
  lemma ParsedLinesOrigin(lines: seq<string>, delimiter: Option<string>) returns (idx: seq<nat>)
    ensures var pairs := ParsedLines(lines, delimiter);
      |idx| == |pairs| &&
      (forall j | 0 <= j < |idx| :: idx[j] < |lines| && ParsedLine(lines[idx[j]], delimiter) == Some(pairs[j])) &&
      (forall j, k | 0 <= j < k < |idx| :: idx[j] < idx[k]) &&
      (forall i | 0 <= i < |lines| :: ParsedLine(lines[i], delimiter).Some? <==> i in idx)
  {
    idx := FilterMapOrigin(line => ParsedLine(line, delimiter), lines);
  }

  /** At most one pair per line. */
  lemma ParsedLinesBound(lines: seq<string>, delimiter: Option<string>)
    ensures |ParsedLines(lines, delimiter)| <= |lines|
  {
    FilterMapBound(line => ParsedLine(line, delimiter), lines);
  }

  /** Every produced pair is clean, whatever the lines. */
  lemma ParsedLinesClean(lines: seq<string>, delimiter: Option<string>)
    ensures forall c | c in ParsedLines(lines, delimiter) ::
      c.username != "" && c.password != "" && NoEdgeSpace(c.username) && NoEdgeSpace(c.password)
  {
    var idx := ParsedLinesOrigin(lines, delimiter);
    var pairs := ParsedLines(lines, delimiter);
    forall c | c in pairs
      ensures c.username != "" && c.password != "" && NoEdgeSpace(c.username) && NoEdgeSpace(c.password)
    {
      var j :| 0 <= j < |pairs| && pairs[j] == c;
      ParsedPairShape(lines[idx[j]], delimiter);
    }
  }

  /** Blank lines contribute nothing: dropping them changes no output. */
  lemma BlankLinesContributeNothing(a: seq<string>, blank: string, b: seq<string>, delimiter: Option<string>)
    requires AllSpace(blank)
    ensures ParsedLines(a + [blank] + b, delimiter) == ParsedLines(a + b, delimiter)
  {
    BlankLineSkipped(blank, delimiter);
    ParsedLinesAppend(a + [blank], b, delimiter);
    ParsedLinesAppend(a, [blank], delimiter);
    ParsedLinesAppend(a, b, delimiter);
    assert [blank][..0] == [];
  }
}
