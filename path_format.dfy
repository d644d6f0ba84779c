/** pathToString: the display form of a path (jsonUpdater.js), with a
    parser that inverts it on paths whose keys are plain names. */
module PathFormat {
  import opened Decimal
  import opened JsonValues

  /** The text of the segment at position index: `[N]` for an index, the
      bare key in first position, `.key` after that. */
  function SegmentText(seg: Segment, index: nat): (t: string)
    ensures index > 0 || seg.Idx? ==> t != [] && IsSeparator(t[0])
  {
    match seg
    case Idx(n) => "[" + NatToString(n) + "]"
    case Key(k) => if index == 0 then k else "." + k
  }

  /** The joined texts of path's segments, the first at position index. */
  function RenderFrom(path: Path, index: nat): (s: string)
    ensures index > 0 && path != [] ==> s != [] && IsSeparator(s[0])
    decreases |path|
  {
    if path == [] then "" else SegmentText(path[0], index) + RenderFrom(path[1..], index + 1)
  }

  function PathToString(path: Path): (s: string)
    ensures path == [] ==> s == "root"
    ensures path != [] && path[0].Key? ==> |path[0].name| <= |s| && s[..|path[0].name|] == path[0].name
    ensures path != [] && path[0].Idx? ==> s != [] && s[0] == '['
    ensures path != [] && PlainPath(path) ==> ParseFrom(s, 0) == Some(path)
  {
    if path == [] then "root"
    else
      assert PlainPath(path) ==> ParseFrom(RenderFrom(path, 0), 0) == Some(path) by {
        if PlainPath(path) { ParseRenderFrom(path, 0); }
      }
      RenderFrom(path, 0)
  }

  /** The shape of one segment's text: an index is `[`, digits that read
      back as the index, `]`; a key is the key itself in first position and
      `.key` after that. */
  lemma SegmentTextShape(seg: Segment, index: nat)
    ensures seg.Idx? ==> var t := SegmentText(seg, index);
      3 <= |t| && t[0] == '[' && t[|t| - 1] == ']'
      && AllDigits(t[1..|t| - 1]) && DigitsValue(t[1..|t| - 1]) == seg.index
    ensures seg.Key? && index == 0 ==> SegmentText(seg, index) == seg.name
    ensures seg.Key? && index > 0 ==> SegmentText(seg, index) == "." + seg.name
  {
    if seg.Idx? {
      var d := NatToString(seg.index);
      DigitsValueOfNatToString(seg.index);
      assert SegmentText(seg, index)[1..|SegmentText(seg, index)| - 1] == d;
    }
  }

  /** Only position 0 matters to the rendering of a segment. */
  lemma {:induction false} RenderFromLater(path: Path, i: nat, j: nat)
    requires i > 0 && j > 0
    ensures RenderFrom(path, i) == RenderFrom(path, j)
    decreases |path|
  {
    if path != [] {
      RenderFromLater(path[1..], i + 1, j + 1);
    }
  }

  lemma {:induction false} RenderFromSnoc(path: Path, seg: Segment, index: nat)
    ensures RenderFrom(path + [seg], index) == RenderFrom(path, index) + SegmentText(seg, index + |path|)
    decreases |path|
  {
    if path == [] {
      assert [seg][1..] == [];
    } else {
      assert (path + [seg])[1..] == path[1..] + [seg];
      RenderFromSnoc(path[1..], seg, index + 1);
    }
  }

  /** Extending a path by one segment, as the renderer does for each child,
      appends that segment's text: `.key` or `[N]`. */
  lemma PathToStringSnoc(path: Path, seg: Segment)
    requires path != []
    ensures PathToString(path + [seg]) == PathToString(path) + SegmentText(seg, |path|)
    ensures seg.Key? ==> PathToString(path + [seg]) == PathToString(path) + ("." + seg.name)
    ensures seg.Idx? ==> PathToString(path + [seg]) == PathToString(path) + ("[" + NatToString(seg.index) + "]")
  {
    RenderFromSnoc(path, seg, 0);
    assert PathToString(path + [seg]) == RenderFrom(path + [seg], 0);
  }

  lemma PathToStringOfKeys()
    ensures PathToString([Key("server"), Key("port")]) == "server.port"
  {
    assert RenderFrom([Key("port")], 1) == ".port";
  }

  lemma PathToStringOfMixed()
    ensures PathToString([Key("items"), Idx(0), Key("name")]) == "items[0].name"
  {
    assert NatToString(0) == "0";
    assert RenderFrom([Key("name")], 2) == ".name";
    assert RenderFrom([Idx(0), Key("name")], 1) == "[0].name";
  }

  /** Distinct paths can share a display form: a single key spelled `root`
      looks like the empty path, ... */
  lemma RootKeyCollision()
    ensures PathToString([]) == PathToString([Key("root")])
  {
    assert PathToString([Key("root")]) == RenderFrom([Key("root")], 0);
  }

  /** ... a key holding a dot looks like two keys, ... */
  lemma DottedKeyCollision()
    ensures PathToString([Key("a.b")]) == PathToString([Key("a"), Key("b")])
  {
    assert PathToString([Key("a.b")]) == RenderFrom([Key("a.b")], 0) == "a.b";
    assert RenderFrom([Key("b")], 1) == ".b";
    assert PathToString([Key("a"), Key("b")]) == RenderFrom([Key("a"), Key("b")], 0);
  }

  /** ... and a key holding brackets looks like an index. */
  lemma BracketKeyCollision()
    ensures PathToString([Key("[0]")]) == PathToString([Idx(0)])
  {
    assert NatToString(0) == "0";
    assert PathToString([Key("[0]")]) == RenderFrom([Key("[0]")], 0) == "[0]";
    assert PathToString([Idx(0)]) == RenderFrom([Idx(0)], 0);
  }

  // -----------------------------------------------------------------------
  // Parsing the display form back

  predicate IsSeparator(c: char) {
    c == '.' || c == '['
  }

  /** A key the display form can carry without ambiguity. */
  predicate PlainKey(k: string) {
    k != [] && forall i :: 0 <= i < |k| ==> !IsSeparator(k[i])
  }

  predicate PlainPath(path: Path) {
    forall i :: 0 <= i < |path| ==> (path[i].Key? ==> PlainKey(path[i].name))
  }

  /** The longest prefix of s with no separator. */
  function TakeName(s: string): (r: string)
    ensures |r| <= |s| && r == s[..|r|]
    ensures forall i :: 0 <= i < |r| ==> !IsSeparator(r[i])
  {
    if s == [] || IsSeparator(s[0]) then [] else [s[0]] + TakeName(s[1..])
  }

  /** The longest prefix of s made of digits. */
  function TakeDigits(s: string): (r: string)
    ensures |r| <= |s| && r == s[..|r|]
    ensures AllDigits(r)
  {
    if s == [] || !IsDigit(s[0]) then [] else [s[0]] + TakeDigits(s[1..])
  }

  function Prepend(seg: Segment, parsed: Option<Path>): Option<Path> {
    match parsed
    case None => None
    case Some(rest) => Some([seg] + rest)
  }

  /** Parses the segments of a display form, the first at position index. */
  function ParseFrom(s: string, index: nat): Option<Path>
    decreases |s|, 1
  {
    if s == [] then Some([])
    else if s[0] == '[' then ParseIndexFrom(s, index)
    else ParseKeyFrom(s, index)
  }

  /** `[digits]` followed by the remaining segments. */
  function ParseIndexFrom(s: string, index: nat): Option<Path>
    requires s != [] && s[0] == '['
    decreases |s|, 0
  {
    var digits := TakeDigits(s[1..]);
    if digits == [] || |s| < |digits| + 2 || s[|digits| + 1] != ']' then None
    else Prepend(Idx(DigitsValue(digits)), ParseFrom(s[|digits| + 2..], index + 1))
  }

  /** A key (after a `.` unless in first position) followed by the remaining segments. */
  function ParseKeyFrom(s: string, index: nat): Option<Path>
    requires s != []
    decreases |s|, 0
  {
    var start := if index == 0 then 0 else 1;
    if index > 0 && s[0] != '.' then None
    else
      var name := TakeName(s[start..]);
      if name == [] then None
      else Prepend(Key(name), ParseFrom(s[start + |name|..], index + 1))
  }

  lemma {:induction false} TakeNameOf(k: string, rest: string)
    requires forall i :: 0 <= i < |k| ==> !IsSeparator(k[i])
    requires rest == [] || IsSeparator(rest[0])
    ensures TakeName(k + rest) == k
    decreases |k|
  {
    if k != [] {
      assert (k + rest)[1..] == k[1..] + rest;
      TakeNameOf(k[1..], rest);
    }
  }

  lemma {:induction false} TakeDigitsOf(d: string, rest: string)
    requires AllDigits(d)
    requires rest == [] || !IsDigit(rest[0])
    ensures TakeDigits(d + rest) == d
    decreases |d|
  {
    if d != [] {
      assert (d + rest)[1..] == d[1..] + rest;
      TakeDigitsOf(d[1..], rest);
    }
  }

  /** A bracketed run of digits parses back as one index segment, given
      that its tail does. */
  lemma ParseDigitsSegment(d: string, tail: string, index: nat, rest: Path)
    requires d != [] && AllDigits(d)
    requires ParseFrom(tail, index + 1) == Some(rest)
    ensures ParseFrom("[" + d + "]" + tail, index) == Some([Idx(DigitsValue(d))] + rest)
  {
    var s := "[" + d + "]" + tail;
    assert s[1..] == d + ("]" + tail);
    TakeDigitsOf(d, "]" + tail);
    assert s[|d| + 1] == ']' && s[|d| + 2..] == tail;
  }

  /** One index segment parses back, given that its tail does. */
  lemma ParseIndexSegment(n: nat, tail: string, index: nat, rest: Path)
    requires ParseFrom(tail, index + 1) == Some(rest)
    ensures ParseFrom(SegmentText(Idx(n), index) + tail, index) == Some([Idx(n)] + rest)
  {
    ParseDigitsSegment(NatToString(n), tail, index, rest);
    DigitsValueOfNatToString(n);
  }

  /** A plain key in first position parses back, given that its tail does
      and starts with a separator. */
  lemma ParseFirstKey(k: string, tail: string, rest: Path)
    requires PlainKey(k)
    requires tail == [] || IsSeparator(tail[0])
    requires ParseFrom(tail, 1) == Some(rest)
    ensures ParseFrom(k + tail, 0) == Some([Key(k)] + rest)
  {
    var s := k + tail;
    assert s[0] == k[0] && s[0..] == s;
    TakeNameOf(k, tail);
    assert s[|k|..] == tail;
  }

  /** A `.`-prefixed plain key after the first position parses back, given
      that its tail does and starts with a separator. */
  lemma ParseLaterKey(k: string, tail: string, index: nat, rest: Path)
    requires index > 0 && PlainKey(k)
    requires tail == [] || IsSeparator(tail[0])
    requires ParseFrom(tail, index + 1) == Some(rest)
    ensures ParseFrom("." + k + tail, index) == Some([Key(k)] + rest)
  {
    var s := "." + k + tail;
    assert s[1..] == k + tail;
    TakeNameOf(k, tail);
    assert s[1 + |k|..] == tail;
  }

  /** One plain key segment parses back, given that its tail does and starts
      with a separator. */
  lemma ParseKeySegment(k: string, tail: string, index: nat, rest: Path)
    requires PlainKey(k)
    requires tail == [] || IsSeparator(tail[0])
    requires ParseFrom(tail, index + 1) == Some(rest)
    ensures ParseFrom(SegmentText(Key(k), index) + tail, index) == Some([Key(k)] + rest)
  {
    if index == 0 {
      ParseFirstKey(k, tail, rest);
    } else {
      ParseLaterKey(k, tail, index, rest);
    }
  }

  /** Parsing inverts rendering on plain paths. */
  lemma {:induction false} ParseRenderFrom(path: Path, index: nat)
    requires PlainPath(path)
    ensures ParseFrom(RenderFrom(path, index), index) == Some(path)
    decreases |path|
  {
    if path != [] {
      var seg, rest := path[0], path[1..];
      assert path == [seg] + rest;
      assert PlainPath(rest) by {
        forall i | 0 <= i < |rest| ensures rest[i].Key? ==> PlainKey(rest[i].name) {
          assert rest[i] == path[i + 1];
        }
      }
      var tail := RenderFrom(rest, index + 1);
      ParseRenderFrom(rest, index + 1);
      match seg
      case Idx(n) =>
        ParseIndexSegment(n, tail, index, rest);
      case Key(k) =>
        ParseKeySegment(k, tail, index, rest);
    }
  }

  /** Display forms of non-empty plain paths tell the paths apart. */
  lemma PathToStringInjective(p1: Path, p2: Path)
    requires p1 != [] && p2 != []
    requires PlainPath(p1) && PlainPath(p2)
    requires PathToString(p1) == PathToString(p2)
    ensures p1 == p2
  {
    ParseRenderFrom(p1, 0);
    ParseRenderFrom(p2, 0);
  }
}
