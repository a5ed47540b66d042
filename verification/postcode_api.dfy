/** Postcode input handling and resolution (src/services/postcodeApi.ts):
    normalising typed text into postcodes, and turning each lookup outcome
    into a `PostcodeSearchResult` that never fails. */
module PostcodeApi {
  import opened Wrappers
  import opened Types
  import opened Text
  import ApiService
  import Seqs

  /** How one promise of a batch settled. */
  datatype Settled<T> = Fulfilled(value: T) | Rejected

  /** A postcode in normal form: no whitespace and no lower-case letter. */
  predicate IsFormatted(s: string) {
    NoSpace(s) && NoLower(s)
  }

  /** `formatPostcode`: all whitespace removed, then upper-cased. */
  function FormatPostcode(postcode: string): (r: string)
    ensures IsFormatted(r)
    ensures |r| <= |postcode|
    ensures ',' in r <==> ',' in postcode
  {
    var stripped := RemoveSpaces(postcode);
    var r := Upper(stripped);
    assert forall i :: 0 <= i < |r| ==> (r[i] == ',' <==> stripped[i] == ',');
    r
  }

  /** Formatted strings are exactly the fixed points of `FormatPostcode`. */
  lemma FormatFixedPoints(s: string)
    ensures FormatPostcode(s) == s <==> IsFormatted(s)
  {
    if IsFormatted(s) {
      RemoveSpacesOfSpaceFree(s);
      UpperOfUpper(s);
    }
  }

  lemma FormatIdempotent(s: string)
    ensures FormatPostcode(FormatPostcode(s)) == FormatPostcode(s)
  {
    FormatFixedPoints(FormatPostcode(s));
  }

  /** Formatting works character by character: it distributes over
      concatenation, drops whitespace and upper-cases everything else. */
  lemma FormatPostcodeAppend(a: string, b: string)
    ensures FormatPostcode(a + b) == FormatPostcode(a) + FormatPostcode(b)
  {
    RemoveSpacesAppend(a, b);
    UpperAppend(RemoveSpaces(a), RemoveSpaces(b));
  }

  lemma FormatPostcodeChar(c: char)
    ensures FormatPostcode([c]) == if IsSpace(c) then "" else [ToUpper(c)]
  {
    assert [c][1..] == "";
  }

  /** A space between two pieces disappears: each piece is formatted on its own. */
  lemma FormatDropsSpace(a: string, b: string, joined: string)
    requires joined == a + [' '] + b
    ensures FormatPostcode(joined) == FormatPostcode(a) + FormatPostcode(b)
  {
    assert FormatPostcode(a + [' ']) == FormatPostcode(a) by {
      FormatPostcodeChar(' ');
      FormatPostcodeAppend(a, [' ']);
    }
    FormatPostcodeAppend(a + [' '], b);
  }

  /** A word without whitespace formats to its letters upper-cased one by one. */
  lemma FormatWord(w: string, u: string)
    requires NoSpace(w) && |u| == |w|
    requires forall i :: 0 <= i < |w| ==> u[i] == ToUpper(w[i])
    ensures FormatPostcode(w) == u
  {
    FormatSpaceFree(w);
  }

  /** A typed postcode in its normal form. */
  lemma FormatExample(typed: string)
    requires typed == "sw1a 1aa"
    ensures FormatPostcode(typed) == "SW1A1AA"
  {
    var outward, inward := typed[..4], typed[5..];
    assert typed == outward + [' '] + inward;
    FormatWord(outward, "SW1A");
    FormatWord(inward, "1AA");
    FormatDropsSpace(outward, inward, typed);
    ExampleConcat("SW1A", "1AA", FormatPostcode(typed), "SW1A1AA");
  }

  /** The same with a leading space, as a segment after a comma is typed. */
  lemma FormatSpacedExample(typed: string)
    requires typed == " m1 1aa"
    ensures FormatPostcode(typed) == "M11AA"
  {
    var outward, inward := typed[1..3], typed[4..];
    assert typed[1..] == outward + [' '] + inward;
    assert typed == "" + [' '] + typed[1..];
    FormatWord(outward, "M1");
    FormatWord(inward, "1AA");
    FormatDropsSpace(outward, inward, typed[1..]);
    ExampleConcat("M1", "1AA", FormatPostcode(typed[1..]), "M11AA");
    FormatDropsSpace("", typed[1..], typed);
  }

  /** The literal step of the examples, checked on its own. */
  lemma ExampleConcat(x: string, y: string, z: string, xy: string)
    requires z == x + y
    requires (x == "SW1A" && y == "1AA" && xy == "SW1A1AA") || (x == "M1" && y == "1AA" && xy == "M11AA")
    ensures z == xy
  {
  }

  /** Without whitespace, formatting only upper-cases. */
  lemma FormatSpaceFree(s: string)
    requires NoSpace(s)
    ensures FormatPostcode(s) == Upper(s)
  {
    RemoveSpacesOfSpaceFree(s);
  }

  /** A postcode as `parsePostcodeInput` emits it. */
  predicate IsParsedPostcode(p: string) {
    p != "" && IsFormatted(p) && ',' !in p
  }

  /** One comma-separated segment, trimmed and formatted; nothing if that leaves it empty. */
  function ParseSegment(segment: string): (r: seq<string>)
    ensures |r| <= 1
    ensures |r| == 1 ==> r[0] != "" && IsFormatted(r[0])
    ensures ',' !in segment ==> forall i :: 0 <= i < |r| ==> ',' !in r[i]
    ensures |r| == 1 <==> FormatPostcode(Trim(segment)) != ""
    ensures |r| == 1 ==> r[0] == FormatPostcode(Trim(segment))
  {
    var t := Trim(segment);
    assert ',' !in segment ==> ',' !in t;
    var p := FormatPostcode(t);
    if |p| > 0 then [p] else []
  }

  /** The segment-wise part of `parsePostcodeInput`: trim, format, drop empties. */
  function ParseSegments(segments: seq<string>): (r: seq<string>)
    ensures |r| <= |segments|
  {
    if |segments| == 0 then []
    else ParseSegment(segments[0]) + ParseSegments(segments[1..])
  }

  /** Each segment's own parse, side by side. */
  function SegmentParses(segments: seq<string>): (r: seq<seq<string>>)
    ensures |r| == |segments|
    ensures forall i :: 0 <= i < |r| ==> r[i] == ParseSegment(segments[i])
  {
    seq(|segments|, i requires 0 <= i < |segments| => ParseSegment(segments[i]))
  }

  /** The segment-wise parse is the concatenation of the segments' own parses, in order. */
  lemma {:induction false} ParseSegmentsIsFlatten(segments: seq<string>)
    ensures ParseSegments(segments) == Seqs.Flatten(SegmentParses(segments))
  {
    if |segments| > 0 {
      ParseSegmentsIsFlatten(segments[1..]);
      assert SegmentParses(segments)[1..] == SegmentParses(segments[1..]);
    }
  }

  /** `parsePostcodeInput`: split on commas, normalise each segment, drop empty ones. */
  function ParsePostcodeInput(input: string): (r: seq<string>)
    ensures forall i :: 0 <= i < |r| ==> IsParsedPostcode(r[i])
    ensures |r| <= Occurrences(input, ',') + 1
    ensures r == Seqs.Flatten(SegmentParses(Split(input, ',')))
  {
    ParseSegmentsWellFormed(Split(input, ','));
    ParseSegmentsIsFlatten(Split(input, ','));
    ParseSegments(Split(input, ','))
  }

  lemma {:induction false} ParseSegmentsAppend(a: seq<string>, b: seq<string>)
    ensures ParseSegments(a + b) == ParseSegments(a) + ParseSegments(b)
  {
    if |a| > 0 {
      assert (a + b)[0] == a[0];
      assert (a + b)[1..] == a[1..] + b;
      ParseSegmentsAppend(a[1..], b);
    } else {
      assert a + b == b;
    }
  }

  /** Comma-free segments parse to well-formed postcodes. */
  lemma {:induction false} ParseSegmentsWellFormed(segments: seq<string>)
    requires forall i :: 0 <= i < |segments| ==> ',' !in segments[i]
    ensures forall i :: 0 <= i < |ParseSegments(segments)| ==> IsParsedPostcode(ParseSegments(segments)[i])
  {
    if |segments| > 0 {
      ParseSegmentsWellFormed(segments[1..]);
      var h := ParseSegment(segments[0]);
      var t := ParseSegments(segments[1..]);
      assert forall i :: 0 <= i < |h| ==> IsParsedPostcode(h[i]);
      assert ParseSegments(segments) == h + t;
    }
  }

  /** Every parsed postcode is non-empty, whitespace-free, comma-free and
      upper-case; there are at most as many as comma-separated segments. */
  lemma ParsedPostcodesWellFormed(input: string)
    ensures forall i :: 0 <= i < |ParsePostcodeInput(input)| ==> IsParsedPostcode(ParsePostcodeInput(input)[i])
    ensures |ParsePostcodeInput(input)| <= Occurrences(input, ',') + 1
  {
    ParseSegmentsWellFormed(Split(input, ','));
  }

  /** Whitespace around a segment makes no difference to what it parses to. */
  lemma ParseSegmentIgnoresSpace(x: string)
    ensures ParseSegment([' '] + x) == ParseSegment(x)
  {
    RemoveSpacesOfTrim([' '] + x);
    RemoveSpacesOfTrim(x);
    assert ([' '] + x)[1..] == x;
  }

  /** A well-formed postcode is its own parse. */
  lemma ParseSegmentOfParsed(p: string)
    requires IsParsedPostcode(p)
    ensures ParseSegment(p) == [p]
  {
    assert Trim(p) == p by {
      assert !IsSpace(p[0]) && !IsSpace(p[|p| - 1]);
      TrimOfTrimmed(p);
    }
    assert FormatPostcode(p) == p by {
      FormatFixedPoints(p);
    }
  }

  /** How the ", "-joined text of `p` followed by more postcodes splits. */
  lemma SplitOfJoinStep(p: string, rest: seq<string>)
    requires ',' !in p && |rest| > 0
    ensures Split(Join([p] + rest, ", "), ',')
         == [p] + ([[' '] + Split(Join(rest, ", "), ',')[0]] + Split(Join(rest, ", "), ',')[1..])
  {
    var j := Join(rest, ", ");
    JoinCons(p, rest, ", ");
    assert ", " == [','] + [' '];
    Seqs.SeqAssoc(p, [','] + [' '], j);
    Seqs.SeqAssoc(p + [','], [' '], j);
    Seqs.SeqAssoc(p, [','], [' ']);
    assert Join([p] + rest, ", ") == p + [','] + ([' '] + j);
    SplitAtSeparator(p, [' '] + j, ',');
    SplitPrefix([' '], j, ',');
  }

  lemma ParseSegmentsCons(x: string, rest: seq<string>)
    ensures ParseSegments([x] + rest) == ParseSegment(x) + ParseSegments(rest)
  {
    assert ([x] + rest)[0] == x && ([x] + rest)[1..] == rest;
  }

  /** Trimming before formatting changes nothing, since formatting drops all whitespace. */
  lemma FormatOfTrim(s: string)
    ensures FormatPostcode(Trim(s)) == FormatPostcode(s)
  {
    RemoveSpacesOfTrim(s);
  }

  /** A segment parses to its formatted text, or to nothing when that is empty. */
  lemma ParseSegmentFormats(s: string)
    ensures ParseSegment(s) == if FormatPostcode(s) == "" then [] else [FormatPostcode(s)]
  {
    FormatOfTrim(s);
  }

  /** Input without a comma is one segment. */
  lemma ParseInputSingle(s: string)
    requires ',' !in s
    ensures ParsePostcodeInput(s) == ParseSegment(s)
  {
    SplitNoSeparator(s, ',');
    ParseSegmentsCons(s, []);
    assert [s] + [] == [s];
  }

  /** Text up to the first comma is the first segment; the rest parses on its own. */
  lemma ParseInputComma(a: string, b: string, input: string)
    requires ',' !in a && input == a + [','] + b
    ensures ParsePostcodeInput(input) == ParseSegment(a) + ParsePostcodeInput(b)
  {
    SplitAtSeparator(a, b, ',');
    ParseSegmentsCons(a, Split(b, ','));
  }

  lemma ParseInputThree(input: string, a: string, b: string, c: string)
    requires ',' !in a && ',' !in b && ',' !in c
    requires input == a + [','] + (b + [','] + c)
    ensures ParsePostcodeInput(input) == ParseSegment(a) + (ParseSegment(b) + ParseSegment(c))
  {
    ParseInputSingle(c);
    ParseInputComma(b, c, b + [','] + c);
    ParseInputComma(a, b + [','] + c, input);
  }

  /** Mixed case and inner spaces are normalised and blank segments vanish. */
  lemma ParseExample(input: string)
    requires input == "sw1a 1aa, , m1 1aa"
    ensures ParsePostcodeInput(input) == ["SW1A1AA", "M11AA"]
  {
    ParseExampleSegments(input, input[..8], input[9..10], input[11..]);
  }

  lemma ParseExampleSegments(input: string, a: string, b: string, c: string)
    requires a == "sw1a 1aa" && b == " " && c == " m1 1aa"
    requires input == a + [','] + (b + [','] + c)
    ensures ParsePostcodeInput(input) == ["SW1A1AA", "M11AA"]
  {
    ParseInputThree(input, a, b, c);
    ExampleParses(ParseSegment(a), ParseSegment(b), ParseSegment(c)) by {
      FormatExample(a);
      ParseSegmentFormats(a);
      FormatPostcodeChar(' ');
      ParseSegmentFormats(b);
      FormatSpacedExample(c);
      ParseSegmentFormats(c);
    }
  }

  /** The literal step of ParseExample, checked on its own. */
  lemma ExampleParses(x: seq<string>, y: seq<string>, z: seq<string>)
    requires x == ["SW1A1AA"] && y == [] && z == ["M11AA"]
    ensures x + (y + z) == ["SW1A1AA", "M11AA"]
  {
  }

  /** Joining well-formed postcodes with ", " and parsing gives them back. */
  lemma {:induction false} ParseOfJoin(ps: seq<string>)
    requires forall i :: 0 <= i < |ps| ==> IsParsedPostcode(ps[i])
    ensures ParsePostcodeInput(Join(ps, ", ")) == ps
  {
    if |ps| == 1 {
      ParseOfSingle(ps[0]);
    } else if |ps| > 1 {
      ParseOfJoin(ps[1..]);
      ParseOfJoinCons(ps[0], ps[1..]);
      assert ps == [ps[0]] + ps[1..];
    }
  }

  lemma ParseOfSingle(p: string)
    requires IsParsedPostcode(p)
    ensures ParsePostcodeInput(Join([p], ", ")) == [p]
  {
    assert Join([p], ", ") == p;
    assert Split(p, ',') == [p] by {
      SplitPrefix(p, "", ',');
      assert p + "" == p;
    }
    assert ParseSegments([p]) == [p] by {
      ParseSegmentOfParsed(p);
      ParseSegmentsCons(p, []);
    }
  }

  /** One more well-formed postcode in front of a text that parses back. */
  lemma ParseOfJoinCons(p: string, rest: seq<string>)
    requires IsParsedPostcode(p) && |rest| > 0
    requires ParsePostcodeInput(Join(rest, ", ")) == rest
    ensures ParsePostcodeInput(Join([p] + rest, ", ")) == [p] + rest
  {
    var s := Split(Join(rest, ", "), ',');
    var tail := [[' '] + s[0]] + s[1..];
    assert Split(Join([p] + rest, ", "), ',') == [p] + tail by {
      SplitOfJoinStep(p, rest);
    }
    assert ParseSegments([p] + tail) == [p] + ParseSegments(tail) by {
      ParseSegmentsCons(p, tail);
      ParseSegmentOfParsed(p);
    }
    assert ParseSegments(tail) == ParseSegments(s) by {
      Seqs.HeadTail(s);
      ParseSegmentsCons([' '] + s[0], s[1..]);
      ParseSegmentIgnoresSpace(s[0]);
      ParseSegmentsCons(s[0], s[1..]);
    }
  }

  /** Re-parsing the ", "-joined parse of any input gives the same postcodes. */
  lemma ParseRoundTrip(input: string)
    ensures ParsePostcodeInput(Join(ParsePostcodeInput(input), ", ")) == ParsePostcodeInput(input)
  {
    ParsedPostcodesWellFormed(input);
    ParseOfJoin(ParsePostcodeInput(input));
  }

  /** The sentinel result for a postcode that could not be resolved. */
  function InvalidResult(postcode: string): (r: PostcodeSearchResult)
    ensures !r.valid && r.postcode == postcode
  {
    PostcodeSearchResult(postcode, 0.0, 0.0, false)
  }

  /** `validatePostcode`: a successful lookup gives the response's postcode
      and parsed coordinates; any failure gives the invalid sentinel for the
      postcode as it was passed in. `parseFloat` is taken as given. */
  function ValidatePostcode(postcode: string, response: Result<PostcodeResponse, ApiError>,
                            parseFloat: string -> real): (r: PostcodeSearchResult)
    ensures r.valid <==> response.Success?
    ensures response.Success? ==>
      && r.postcode == response.value.result.postcode
      && r.latitude == parseFloat(response.value.result.latitude)
      && r.longitude == parseFloat(response.value.result.longitude)
    ensures response.Failure? ==> r == InvalidResult(postcode)
  {
    match response
    case Success(resp) =>
      PostcodeSearchResult(resp.result.postcode, parseFloat(resp.result.latitude),
                           parseFloat(resp.result.longitude), true)
    case Failure(_) => InvalidResult(postcode)
  }

  /** `validateMultiplePostcodes`: one result per input, in input order; a
      rejected entry becomes the invalid sentinel for its own postcode. */
  function ValidateMultiplePostcodes(postcodes: seq<string>, settled: seq<Settled<PostcodeSearchResult>>)
    : (r: seq<PostcodeSearchResult>)
    requires |settled| == |postcodes|
    ensures |r| == |postcodes|
    ensures forall i :: 0 <= i < |r| && settled[i].Fulfilled? ==> r[i] == settled[i].value
    ensures forall i :: 0 <= i < |r| && settled[i].Rejected? ==> r[i] == InvalidResult(postcodes[i])
  {
    seq(|postcodes|, i requires 0 <= i < |postcodes| =>
      if settled[i].Fulfilled? then settled[i].value else InvalidResult(postcodes[i]))
  }

  /** The lookup of one postcode through the HTTP oracle `get`. */
  function Resolve(postcode: string, get: string -> ApiService.HttpOutcome<ApiService.LookupBody>,
                   parseFloat: string -> real): (r: PostcodeSearchResult)
    ensures r.valid <==> get(postcode).Responded? && get(postcode).body.status == "match"
    ensures r.valid ==>
      && r.postcode == get(postcode).body.data.postcode
      && r.latitude == parseFloat(get(postcode).body.data.latitude)
      && r.longitude == parseFloat(get(postcode).body.data.longitude)
    ensures !r.valid ==> r == InvalidResult(postcode)
  {
    ValidatePostcode(postcode, ApiService.ValidatePostcode(get(postcode)), parseFloat)
  }

  /** The batch as the search pipeline runs it: every promise fulfils,
      because each single resolution absorbs its own failure. */
  function ResolveAll(postcodes: seq<string>, get: string -> ApiService.HttpOutcome<ApiService.LookupBody>,
                      parseFloat: string -> real): (r: seq<PostcodeSearchResult>)
    ensures |r| == |postcodes|
    ensures forall i :: 0 <= i < |r| ==> r[i] == Resolve(postcodes[i], get, parseFloat)
  {
    ValidateMultiplePostcodes(postcodes,
      seq(|postcodes|, i requires 0 <= i < |postcodes| => Fulfilled(Resolve(postcodes[i], get, parseFloat))))
  }

  /** Entry `i` of the batch is valid exactly when the lookup of
      `postcodes[i]` answered "match"; an invalid entry carries
      `postcodes[i]` itself, so failures never reorder or drop entries. */
  lemma ResolveAllPointwise(postcodes: seq<string>, get: string -> ApiService.HttpOutcome<ApiService.LookupBody>,
                            parseFloat: string -> real, i: nat)
    requires i < |postcodes|
    ensures ResolveAll(postcodes, get, parseFloat)[i].valid <==>
      get(postcodes[i]).Responded? && get(postcodes[i]).body.status == "match"
    ensures !ResolveAll(postcodes, get, parseFloat)[i].valid ==>
      ResolveAll(postcodes, get, parseFloat)[i] == InvalidResult(postcodes[i])
    ensures ResolveAll(postcodes, get, parseFloat)[i].valid ==>
      ResolveAll(postcodes, get, parseFloat)[i].postcode == get(postcodes[i]).body.data.postcode
  {
  }
}
