/**
 The hex colour parser of the BuildLeds plugin (`html_to_rgb`).

 A colour setting such as "#808080" has every leading '#' removed; the rest
 (the body) is cut into chunks of `|body| / 3` characters, one chunk starting
 at each index of `range(0, |body|, |body| / 3)`, and every chunk is read as a
 base-16 integer. The result is a sequence of integers (a Python tuple), one
 per chunk.
 */
module HtmlColour {

  /** Why parsing failed. Both are a `ValueError` in the plugin. */
  datatype ParseError =
    | ZeroStep                       // the body has fewer than three characters: `range` is given step 0
    | InvalidLiteral(chunk: string)  // a chunk is not a base-16 literal

  datatype Result<T> = Ok(value: T) | Err(error: ParseError)

  /** `n` copies of '#'. */
  function Hashes(n: nat): (s: string)
    ensures |s| == n && forall i :: 0 <= i < n ==> s[i] == '#'
  {
    seq(n, _ => '#')
  }

  /** `s.lstrip('#')`: removes every leading '#', and nothing else. */
  function StripHashes(s: string): (body: string)
    ensures |body| <= |s|
    ensures s == Hashes(|s| - |body|) + body
    ensures body == [] || body[0] != '#'
  {
    if |s| > 0 && s[0] == '#' then
      var rest := StripHashes(s[1..]);
      assert Hashes(|s| - |rest|) == ['#'] + Hashes(|s[1..]| - |rest|);
      rest
    else
      s
  }

  /** Stripping a run of '#' of any length gives back the body behind it. */
  lemma {:induction false} StripHashesOfHashes(k: nat, body: string)
    requires body == [] || body[0] != '#'
    ensures StripHashes(Hashes(k) + body) == body
  {
    if k > 0 {
      assert (Hashes(k) + body)[1..] == Hashes(k - 1) + body;
      StripHashesOfHashes(k - 1, body);
    }
  }

  predicate IsHexDigit(c: char) {
    ('0' <= c <= '9') || ('a' <= c <= 'f') || ('A' <= c <= 'F')
  }

  predicate AllHex(s: string) {
    forall i {:trigger IsHexDigit(s[i])} :: 0 <= i < |s| ==> IsHexDigit(s[i])
  }

  /** The value of a hex digit (and 0 for any other character, which `ParseHex` never reads). */
  function DigitValue(c: char): (d: nat)
    ensures d < 16
  {
    if '0' <= c <= '9' then c as nat - '0' as nat
    else if 'a' <= c <= 'f' then c as nat - 'a' as nat + 10
    else if 'A' <= c <= 'F' then c as nat - 'A' as nat + 10
    else 0
  }

  /** The lower-case hex digit of `d`, as `format(d, 'x')` writes it. */
  function HexChar(d: nat): (c: char)
    requires d < 16
    ensures IsHexDigit(c) && c != '#'
    ensures DigitValue(c) == d
  {
    if d < 10 then ('0' as nat + d) as char else ('a' as nat + d - 10) as char
  }

  function Pow16(n: nat): (p: nat)
    ensures p >= 1
  {
    if n == 0 then 1 else 16 * Pow16(n - 1)
  }

  /** The number a string of hex digits denotes, most significant digit first. */
  function HexValue(s: string): (v: nat)
    ensures v < Pow16(|s|)
  {
    if s == [] then 0 else HexValue(s[..|s| - 1]) * 16 + DigitValue(s[|s| - 1])
  }

  /** `int(s, 16)` on strings made of hex digits; the empty string is refused. */
  function ParseHex(s: string): (r: Result<nat>)
    ensures r.Ok? <==> |s| > 0 && AllHex(s)
    ensures r.Ok? ==> r.value < Pow16(|s|)
    ensures r.Err? ==> r.error == InvalidLiteral(s)
  {
    if |s| > 0 && AllHex(s) then Ok(HexValue(s)) else Err(InvalidLiteral(s))
  }

  /** Python's `range(start, stop, step)` for a positive step. */
  function PyRange(start: nat, stop: nat, step: nat): (r: seq<nat>)
    requires step > 0
    ensures forall j :: 0 <= j < |r| ==> start <= r[j] < stop
    decreases stop - start
  {
    if start >= stop then [] else [start] + PyRange(start + step, stop, step)
  }

  /** Python's slice `s[i:j]` for `0 <= i <= j`: both ends are cut back to `|s|`. */
  function PySlice(s: string, i: nat, j: nat): (t: string)
    requires i <= j
    ensures |t| <= j - i
    ensures i < |s| && i < j ==> |t| > 0
  {
    var lo := if i < |s| then i else |s|;
    var hi := if j < |s| then j else |s|;
    s[lo..hi]
  }

  /** The slices `body[i:i + step]`, one for each start. */
  function Chunks(body: string, starts: seq<nat>, step: nat): (cs: seq<string>)
    ensures |cs| == |starts|
  {
    if starts == [] then [] else [PySlice(body, starts[0], starts[0] + step)] + Chunks(body, starts[1..], step)
  }

  /** `tuple(int(c, 16) for c in chunks)`: the first chunk that is not a literal raises. */
  function ParseAll(chunks: seq<string>): (r: Result<seq<nat>>)
    ensures r.Ok? ==> |r.value| == |chunks|
    ensures r.Ok? ==> forall j :: 0 <= j < |chunks| ==> r.value[j] == HexValue(chunks[j])
    ensures r.Err? ==> r.error.InvalidLiteral?
  {
    if chunks == [] then Ok([])
    else
      var head := ParseHex(chunks[0]);
      if head.Err? then Err(head.error)
      else
        var tail := ParseAll(chunks[1..]);
        if tail.Err? then tail else Ok([head.value] + tail.value)
  }

  /** `html_to_rgb(html_colour)`. */
  function HtmlToRgb(html: string): (r: Result<seq<nat>>)
    ensures r == Err(ZeroStep) <==> |StripHashes(html)| < 3
  {
    var body := StripHashes(html);
    var lv := |body|;
    var step := lv / 3;
    if step == 0 then Err(ZeroStep)
    else ParseAll(Chunks(body, PyRange(0, lv, step), step))
  }

  function Concat(cs: seq<string>): string {
    if cs == [] then [] else cs[0] + Concat(cs[1..])
  }

  predicate NoneEmpty(cs: seq<string>) {
    forall j :: 0 <= j < |cs| ==> |cs[j]| > 0
  }

  lemma AllHexConcat(a: string, b: string)
    ensures AllHex(a + b) <==> AllHex(a) && AllHex(b)
  {
    if AllHex(a + b) {
      assert forall k :: 0 <= k < |a| ==> a[k] == (a + b)[k];
      assert forall k :: 0 <= k < |b| ==> b[k] == (a + b)[k + |a|];
    }
  }

  /** Parsing non-empty chunks succeeds exactly when their concatenation is all hex digits. */
  lemma {:induction false} ParseAllSucceedsIff(cs: seq<string>)
    requires NoneEmpty(cs)
    ensures ParseAll(cs).Ok? <==> AllHex(Concat(cs))
  {
    if cs != [] {
      assert NoneEmpty(cs[1..]) by {
        assert forall j :: 0 <= j < |cs[1..]| ==> cs[1..][j] == cs[j + 1];
      }
      ParseAllSucceedsIff(cs[1..]);
      AllHexConcat(cs[0], Concat(cs[1..]));
    }
  }

  /** Parsing fails exactly when some chunk is not a literal; it then names the first such chunk. */
  lemma {:induction false} ParseAllFailsAtFirst(cs: seq<string>)
    ensures ParseAll(cs).Err? <==> exists k :: 0 <= k < |cs| && ParseHex(cs[k]).Err?
    ensures ParseAll(cs).Err? ==>
      exists k :: 0 <= k < |cs| && ParseHex(cs[k]).Err? && ParseAll(cs).error == InvalidLiteral(cs[k]) &&
        forall j :: 0 <= j < k ==> ParseHex(cs[j]).Ok?
  {
    if cs != [] {
      var tail := cs[1..];
      ParseAllFailsAtFirst(tail);
      assert forall k :: 1 <= k < |cs| ==> cs[k] == tail[k - 1];
      if ParseHex(cs[0]).Err? {
        assert ParseAll(cs).error == InvalidLiteral(cs[0]);
      } else if ParseAll(tail).Err? {
        var k :| 0 <= k < |tail| && ParseHex(tail[k]).Err? && ParseAll(tail).error == InvalidLiteral(tail[k]) &&
                 forall j :: 0 <= j < k ==> ParseHex(tail[j]).Ok?;
        assert cs[k + 1] == tail[k];
      } else {
        assert forall k :: 0 <= k < |cs| ==> ParseHex(cs[k]).Ok?;
      }
    }
  }

  /** Every start inside the body gives a non-empty chunk. */
  lemma {:induction false} ChunksNonEmpty(body: string, starts: seq<nat>, step: nat)
    requires step > 0 && forall j :: 0 <= j < |starts| ==> starts[j] < |body|
    ensures NoneEmpty(Chunks(body, starts, step))
  {
    if starts != [] {
      var cs := Chunks(body, starts, step);
      assert forall j :: 0 <= j < |starts[1..]| ==> starts[1..][j] == starts[j + 1];
      ChunksNonEmpty(body, starts[1..], step);
      assert forall j :: 1 <= j < |cs| ==> cs[j] == cs[1..][j - 1];
    }
  }

  lemma StepMore(j: nat, step: nat)
    requires j >= 1
    ensures step + (j - 1) * step == j * step
  {
  }

  /** The j-th index of `range(start, stop, step)` is `start + j * step`. */
  lemma {:induction false} PyRangeAt(start: nat, stop: nat, step: nat, j: nat)
    requires step > 0 && j < |PyRange(start, stop, step)|
    ensures PyRange(start, stop, step)[j] == start + j * step
    decreases j
  {
    PyRangeUnfold(start, stop, step);
    if j > 0 {
      PyRangeAt(start + step, stop, step, j - 1);
      StepMore(j, step);
    }
  }

  /** The j-th chunk is the slice `body[starts[j]:starts[j] + step]`. */
  lemma {:induction false} ChunkAt(body: string, starts: seq<nat>, step: nat, j: nat)
    requires j < |starts|
    ensures Chunks(body, starts, step)[j] == PySlice(body, starts[j], starts[j] + step)
    decreases j
  {
    if j > 0 {
      ChunkAt(body, starts[1..], step, j - 1);
      assert Chunks(body, starts, step)[j] == Chunks(body, starts[1..], step)[j - 1];
    }
  }

  lemma PyRangeUnfold(start: nat, stop: nat, step: nat)
    requires step > 0 && start < stop
    ensures PyRange(start, stop, step) == [start] + PyRange(start + step, stop, step)
  {
  }

  lemma ChunksUnfold(body: string, start: nat, rest: seq<nat>, step: nat)
    ensures Chunks(body, [start] + rest, step) == [PySlice(body, start, start + step)] + Chunks(body, rest, step)
  {
    assert ([start] + rest)[0] == start && ([start] + rest)[1..] == rest;
  }

  lemma ConcatCons(head: string, tail: seq<string>)
    ensures Concat([head] + tail) == head + Concat(tail)
  {
    assert ([head] + tail)[0] == head && ([head] + tail)[1..] == tail;
  }

  lemma SliceSplit(s: string, i: nat, k: nat)
    requires i <= k <= |s|
    ensures s[i..] == s[i..k] + s[k..]
  {
  }

  /** The chunks at `range(i, |body|, step)` together spell out `body[i..]`. */
  lemma {:induction false} ChunksCover(body: string, i: nat, step: nat)
    requires step > 0 && i <= |body|
    ensures Concat(Chunks(body, PyRange(i, |body|, step), step)) == body[i..]
    decreases |body| - i
  {
    if i == |body| {
      assert PyRange(i, |body|, step) == [];
    } else {
      var rest := PyRange(i + step, |body|, step);
      var head := PySlice(body, i, i + step);
      var tail := Chunks(body, rest, step);
      PyRangeUnfold(i, |body|, step);
      ChunksUnfold(body, i, rest, step);
      ConcatCons(head, tail);
      assert Concat(Chunks(body, PyRange(i, |body|, step), step)) == head + Concat(tail);
      if i + step < |body| {
        ChunksCover(body, i + step, step);
        SliceSplit(body, i, i + step);
      } else {
        assert rest == [] && tail == [];
        assert head == body[i..] && Concat(tail) == [];
      }
    }
  }

  /** For a body of at least three characters, `html_to_rgb` succeeds exactly when the body is all hex
      digits, and then yields one value per start of `range(0, |body|, |body| / 3)`. */
  lemma HtmlToRgbSucceedsIff(html: string)
    requires |StripHashes(html)| >= 3
    ensures var body := StripHashes(html);
      && (HtmlToRgb(html).Ok? <==> AllHex(body))
      && (HtmlToRgb(html).Err? ==> HtmlToRgb(html).error.InvalidLiteral?)
      && (HtmlToRgb(html).Ok? ==> |HtmlToRgb(html).value| == |PyRange(0, |body|, |body| / 3)|)
  {
    var body := StripHashes(html);
    ChunksNonEmpty(body, PyRange(0, |body|, |body| / 3), |body| / 3);
    ChunksCover(body, 0, |body| / 3);
    ParseAllSucceedsIff(Chunks(body, PyRange(0, |body|, |body| / 3), |body| / 3));
    assert body[0..] == body;
  }

  /** The j-th chunk at `range(0, |body|, step)` is `body[j * step:(j + 1) * step]`. */
  lemma ChunkSliceAt(body: string, step: nat, j: nat)
    requires step > 0 && j < |PyRange(0, |body|, step)|
    ensures Chunks(body, PyRange(0, |body|, step), step)[j] == PySlice(body, j * step, j * step + step)
  {
    var starts := PyRange(0, |body|, step);
    ChunkAt(body, starts, step, j);
    PyRangeAt(0, |body|, step, j);
  }

  /** The j-th value parsed from the chunks at `range(0, |body|, step)` is that of `body[j * step:(j + 1) * step]`. */
  lemma ChunkValueAt(body: string, step: nat, j: nat)
    requires step > 0
    requires var r := ParseAll(Chunks(body, PyRange(0, |body|, step), step)); r.Ok? && j < |r.value|
    ensures ParseAll(Chunks(body, PyRange(0, |body|, step), step)).value[j] == HexValue(PySlice(body, j * step, j * step + step))
  {
    ChunkSliceAt(body, step, j);
  }

  /** When `html_to_rgb` succeeds, with `step = |body| / 3`, its j-th value is `int(body[j * step:(j + 1) * step], 16)`.
      The step is a parameter, pinned by the first requires, so that the statement multiplies by a
      variable rather than by a quotient; this keeps the proof small. */
  lemma HtmlToRgbValueAt(html: string, step: nat, j: nat)
    requires step == |StripHashes(html)| / 3
    requires HtmlToRgb(html).Ok? && j < |HtmlToRgb(html).value|
    ensures HtmlToRgb(html).value[j] == HexValue(PySlice(StripHashes(html), j * step, j * step + step))
  {
    ChunkValueAt(StripHashes(html), step, j);
  }

  /** A body of length 3k (k >= 1) starts chunks at exactly 0, k and 2k. */
  lemma ThirdsRange(k: nat)
    requires k >= 1
    ensures PyRange(0, 3 * k, k) == [0, k, 2 * k]
  {
    assert PyRange(3 * k, 3 * k, k) == [];
    assert PyRange(2 * k, 3 * k, k) == [2 * k];
    assert PyRange(k, 3 * k, k) == [k, 2 * k];
  }

  /** A body whose length (at least 3) is not a multiple of 3 starts at least four chunks. */
  lemma NonThirdsRange(lv: nat)
    requires lv >= 3 && lv % 3 != 0
    ensures |PyRange(0, lv, lv / 3)| >= 4
  {
    var k := lv / 3;
    assert 3 * k < lv;
    assert PyRange(0, lv, k) == [0] + PyRange(k, lv, k);
    assert PyRange(k, lv, k) == [k] + PyRange(2 * k, lv, k);
    assert PyRange(2 * k, lv, k) == [2 * k] + PyRange(3 * k, lv, k);
    assert PyRange(3 * k, lv, k) == [3 * k] + PyRange(4 * k, lv, k);
  }

  /** The chunks of a body of length 3k (k >= 1) are its three thirds. */
  lemma ThirdsChunks(body: string, k: nat)
    requires k >= 1 && |body| == 3 * k
    ensures var cs := Chunks(body, PyRange(0, |body|, |body| / 3), |body| / 3);
      |cs| == 3 && cs[0] == body[..k] && cs[1] == body[k..2 * k] && cs[2] == body[2 * k..]
  {
    ThirdsRange(k);
    assert |body| / 3 == k;
    var starts := [0, k, 2 * k];
    var cs := Chunks(body, starts, k);
    var cs1 := Chunks(body, [k, 2 * k], k);
    var cs2 := Chunks(body, [2 * k], k);
    assert starts[1..] == [k, 2 * k] && [k, 2 * k][1..] == [2 * k];
    assert cs[0] == PySlice(body, 0, k) && cs[1..] == cs1;
    assert cs1[0] == PySlice(body, k, 2 * k) && cs1[1..] == cs2;
    assert cs2[0] == PySlice(body, 2 * k, 3 * k);
  }

  /** A hex body of length 3k (k >= 1), behind any number of '#', parses to exactly three groups:
      the values of its three thirds, each below 16^k. */
  lemma ThreeGroups(n: nat, body: string, k: nat)
    requires k >= 1 && |body| == 3 * k && AllHex(body)
    ensures HtmlToRgb(Hashes(n) + body) ==
      Ok([HexValue(body[..k]), HexValue(body[k..2 * k]), HexValue(body[2 * k..])])
    ensures forall j :: 0 <= j < 3 ==> HtmlToRgb(Hashes(n) + body).value[j] < Pow16(k)
  {
    assert IsHexDigit(body[0]);
    StripHashesOfHashes(n, body);
    var html := Hashes(n) + body;
    HtmlToRgbSucceedsIff(html);
    ThirdsChunks(body, k);
    var cs := Chunks(body, PyRange(0, |body|, |body| / 3), |body| / 3);
    assert HtmlToRgb(html) == ParseAll(cs);
    var v := HtmlToRgb(html).value;
    assert |v| == 3 && v[0] == HexValue(cs[0]) && v[1] == HexValue(cs[1]) && v[2] == HexValue(cs[2]);
    assert v == [HexValue(body[..k]), HexValue(body[k..2 * k]), HexValue(body[2 * k..])];
    assert |body[..k]| == k && |body[k..2 * k]| == k && |body[2 * k..]| == k;
    assert v[0] < Pow16(k) && v[1] < Pow16(k) && v[2] < Pow16(k);
  }

  /** With any number of leading '#', a body of exactly six hex digits gives three integers in [0, 255]. */
  lemma SixHexDigits(html: string)
    requires |StripHashes(html)| == 6 && AllHex(StripHashes(html))
    ensures HtmlToRgb(html).Ok? && |HtmlToRgb(html).value| == 3
    ensures forall j :: 0 <= j < 3 ==> 0 <= HtmlToRgb(html).value[j] <= 255
  {
    var body := StripHashes(html);
    ThreeGroups(|html| - |body|, body, 2);
    assert Pow16(2) == 256;
  }

  /** Groups of more than two digits are not bound to bytes: "#fff000000" parses to (4095, 0, 0). */
  lemma LongGroupExceedsByte()
    ensures HtmlToRgb("#fff000000") == Ok([4095, 0, 0])
  {
    var body := "fff000000";
    assert Hashes(1) + body == "#fff000000";
    AllHexExample(body);
    ThreeGroups(1, body, 3);
    assert body[..3] == "fff" && body[3..6] == "000" && body[6..] == "000";
    HexExamples();
  }

  lemma AllHexExample(body: string)
    requires body == "fff000000"
    ensures AllHex(body)
  {
    assert forall i :: 0 <= i < |body| ==> body[i] == 'f' || body[i] == '0';
  }

  lemma HexExamples()
    ensures HexValue("fff") == 4095 && HexValue("000") == 0
  {
    assert "fff"[..2] == "ff" && "ff"[..1] == "f" && "f"[..0] == "";
    assert "000"[..2] == "00" && "00"[..1] == "0" && "0"[..0] == "";
  }

  /** A body whose length is not a multiple of 3 never parses to three groups. */
  lemma NonThirdsNotThreeGroups(html: string)
    requires |StripHashes(html)| % 3 != 0
    ensures HtmlToRgb(html).Ok? ==> |HtmlToRgb(html).value| >= 4
  {
    var body := StripHashes(html);
    if |body| >= 3 {
      HtmlToRgbSucceedsIff(html);
      NonThirdsRange(|body|);
    }
  }

  /** `v` as two lower-case hex digits, as `'{:02x}'.format(v)` writes it. */
  function Hex2(v: nat): (s: string)
    requires v < 256
    ensures |s| == 2 && AllHex(s)
  {
    [HexChar(v / 16), HexChar(v % 16)]
  }

  lemma Hex2Value(v: nat)
    requires v < 256
    ensures HexValue(Hex2(v)) == v
  {
    var s := Hex2(v);
    assert s[..1] == [HexChar(v / 16)];
    assert s[..1][..0] == [];
    assert HexValue(s[..1]) == v / 16;
  }

  /** The colour string "#rrggbb". */
  function FormatHtml(r: nat, g: nat, b: nat): (s: string)
    requires r < 256 && g < 256 && b < 256
    ensures |s| == 7 && s[0] == '#' && AllHex(s[1..])
  {
    "#" + Hex2(r) + Hex2(g) + Hex2(b)
  }

  /** Round trip: formatting a colour as "#rrggbb" (behind any extra '#') and parsing it gives it back. */
  lemma RoundTrip(n: nat, r: nat, g: nat, b: nat)
    requires r < 256 && g < 256 && b < 256
    ensures HtmlToRgb(Hashes(n) + FormatHtml(r, g, b)) == Ok([r, g, b])
  {
    var body := Hex2(r) + Hex2(g) + Hex2(b);
    assert Hashes(n) + FormatHtml(r, g, b) == Hashes(n + 1) + body;
    assert AllHex(body) by {
      assert forall j :: 0 <= j < 6 ==> body[j] == (if j < 2 then Hex2(r)[j] else if j < 4 then Hex2(g)[j - 2] else Hex2(b)[j - 4]);
    }
    assert body[..2] == Hex2(r);
    assert body[2..4] == Hex2(g);
    assert body[4..] == Hex2(b);
    ThreeGroups(n + 1, body, 2);
    Hex2Value(r);
    Hex2Value(g);
    Hex2Value(b);
  }
}
