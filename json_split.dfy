/** ShamirSecret.splitJSON: the body of a JSON object is cut at every comma that is not
    inside braces. Only braces are counted: brackets and quotes are not, and a closing
    brace with no opening one makes the count negative. */
module JsonSplit {

  /** The brace count after the first i characters of s: '{' adds one, '}' takes one away. */
  function Depth(s: string, i: nat): int
    requires i <= |s|
  {
    if i == 0 then 0
    else Depth(s, i - 1) + (if s[i - 1] == '{' then 1 else if s[i - 1] == '}' then -1 else 0)
  }

  /** Position j of s is a comma outside every brace, where s is cut. */
  predicate TopComma(s: string, j: nat)
    requires j < |s|
  {
    s[j] == ',' && Depth(s, j) == 0
  }

  predicate NoTopComma(s: string)
  {
    forall j :: 0 <= j < |s| ==> !TopComma(s, j)
  }

  /** As many closing braces as opening ones. */
  predicate Balanced(s: string)
  {
    Depth(s, |s|) == 0
  }

  /** s ends with a comma outside every brace: no part follows it. */
  predicate EndsAtTopComma(s: string)
  {
    |s| > 0 && TopComma(s, |s| - 1)
  }

  /** The parts separated by commas. */
  function Join(parts: seq<string>): string
  {
    if |parts| == 0 then ""
    else if |parts| == 1 then parts[0]
    else Join(parts[..|parts| - 1]) + "," + parts[|parts| - 1]
  }

  /** Each part followed by a comma: the text consumed once those parts have been cut off. */
  function Terminated(parts: seq<string>): string
  {
    if parts == [] then "" else Terminated(parts[..|parts| - 1]) + parts[|parts| - 1] + ","
  }

  lemma {:induction false} JoinSnoc(parts: seq<string>, x: string)
    ensures Join(parts + [x]) == Terminated(parts) + x
    decreases |parts|
  {
    var ps := parts + [x];
    assert ps[..|ps| - 1] == parts;
    if parts != [] {
      JoinSnoc(parts[..|parts| - 1], parts[|parts| - 1]);
      assert parts[..|parts| - 1] + [parts[|parts| - 1]] == parts;
    }
  }

  lemma TerminatedJoin(parts: seq<string>)
    requires parts != []
    ensures Join(parts) + "," == Terminated(parts)
  {
    var front, last := parts[..|parts| - 1], parts[|parts| - 1];
    assert parts == front + [last];
    JoinSnoc(front, last);
  }

  lemma {:induction false} TerminatedLength(parts: seq<string>)
    ensures |Terminated(parts)| >= |parts|
    decreases |parts|
  {
    if parts != [] {
      TerminatedLength(parts[..|parts| - 1]);
    }
  }

  /** Depth inside a slice is the depth in the whole string, less the depth at the start. */
  lemma {:induction false} DepthShift(s: string, a: nat, b: nat, j: nat)
    requires a <= b <= |s| && j <= b - a
    ensures Depth(s[a..b], j) == Depth(s, a + j) - Depth(s, a)
    decreases j
  {
    if j > 0 {
      DepthShift(s, a, b, j - 1);
      assert s[a..b][j - 1] == s[a + j - 1];
    }
  }

  /** A stretch starting at depth 0 without top-level commas is a part without any, and
      its own depth at its end is the depth reached in s. */
  lemma Segment(s: string, a: nat, b: nat)
    requires a <= b <= |s| && Depth(s, a) == 0
    requires forall j :: a <= j < b ==> !TopComma(s, j)
    ensures NoTopComma(s[a..b]) && Depth(s[a..b], b - a) == Depth(s, b)
  {
    forall j | 0 <= j < b - a ensures !TopComma(s[a..b], j) {
      DepthShift(s, a, b, j);
      assert !TopComma(s, a + j);
    }
    DepthShift(s, a, b, b - a);
  }

  /** What the loop of splitJSON keeps true after i characters, with the current part
      starting at start. */
  predicate Scanned(json: string, i: nat, start: nat, parts: seq<string>)
  {
    start <= i <= |json|
    && Depth(json, start) == 0
    && json[..start] == Terminated(parts)
    && (start > 0 ==> TopComma(json, start - 1))
    && (forall j :: start <= j < i ==> !TopComma(json, j))
    && (forall p :: 0 <= p < |parts| ==> NoTopComma(parts[p]) && Balanced(parts[p]))
  }

  /** A character that is not a top-level comma extends the current part. */
  lemma ScanOther(json: string, i: nat, start: nat, parts: seq<string>)
    requires Scanned(json, i, start, parts) && i < |json| && !TopComma(json, i)
    ensures Scanned(json, i + 1, start, parts)
  {
  }

  /** A top-level comma closes the current part. */
  lemma ScanCut(json: string, i: nat, start: nat, parts: seq<string>)
    requires Scanned(json, i, start, parts) && i < |json| && TopComma(json, i)
    ensures Scanned(json, i + 1, i + 1, parts + [json[start..i]])
  {
    var parts' := parts + [json[start..i]];
    Segment(json, start, i);
    assert parts'[..|parts'| - 1] == parts;
    assert json[..i + 1] == json[..start] + json[start..i] + ",";
    assert Depth(json, i + 1) == 0;
  }

  /** After the last character: the text after the last cut, if any, is the last part. */
  lemma ScanEnd(json: string, start: nat, parts: seq<string>)
    requires Scanned(json, |json|, start, parts)
    ensures var parts' := if start < |json| then parts + [json[start..]] else parts;
      && Join(parts') + (if EndsAtTopComma(json) then "," else "") == json
      && (forall p :: 0 <= p < |parts'| ==> NoTopComma(parts'[p]))
      && (forall p :: 0 <= p < |parts'| - 1 ==> Balanced(parts'[p]))
      && (EndsAtTopComma(json) ==> forall p :: 0 <= p < |parts'| ==> Balanced(parts'[p]))
      && (parts' == [] <==> json == "")
  {
    TerminatedLength(parts);
    if start < |json| {
      Segment(json, start, |json|);
      JoinSnoc(parts, json[start..]);
      assert json == json[..start] + json[start..];
      var parts' := parts + [json[start..]];
      assert forall p :: 0 <= p < |parts| ==> parts'[p] == parts[p];
    } else if start > 0 {
      TerminatedJoin(parts);
      assert json[..start] == json;
    } else {
      assert json == json[..start];
    }
  }

  /** splitJSON (lines 181-203): the parts are the input cut at its top-level commas, none
      of them holds a top-level comma of its own, every part that ended at a comma has
      balanced braces, and nothing is lost: joining the parts with commas gives the input
      back, apart from a final top-level comma, after which no empty part is added. */
  method SplitJSON(json: string) returns (parts: seq<string>)
    ensures Join(parts) + (if EndsAtTopComma(json) then "," else "") == json
    ensures forall p :: 0 <= p < |parts| ==> NoTopComma(parts[p])
    ensures forall p :: 0 <= p < |parts| - 1 ==> Balanced(parts[p])
    ensures EndsAtTopComma(json) ==> forall p :: 0 <= p < |parts| ==> Balanced(parts[p])
    ensures parts == [] <==> json == ""
  {
    parts := [];
    var braceCount := 0;
    var start := 0;
    for i := 0 to |json|
      invariant braceCount == Depth(json, i)
      invariant Scanned(json, i, start, parts)
    {
      var c := json[i];
      if c == '{' {
        braceCount := braceCount + 1;
        ScanOther(json, i, start, parts);
      } else if c == '}' {
        braceCount := braceCount - 1;
        ScanOther(json, i, start, parts);
      } else if c == ',' && braceCount == 0 {
        ScanCut(json, i, start, parts);
        parts := parts + [json[start..i]];
        start := i + 1;
      } else {
        ScanOther(json, i, start, parts);
      }
    }
    ScanEnd(json, start, parts);
    if start < |json| {
      parts := parts + [json[start..]];
    }
  }
}
