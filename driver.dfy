// The IT8951 e-ink driver process: the command line it reads from stdin, the
// waveform it picks for each quality, how it packs a row of 8-bit grey pixels
// into 16-bit words, and which rows it sends when an older image is given.

module It8951Driver {
  import opened Wrappers
  import opened RustStr

  /** `Quality`: the refresh the next image asks for. */
  datatype Quality = Reset | High | Low

  /** The two `it8951::WaveformMode`s the driver uses. */
  datatype WaveformMode = GrayscaleClearing16 | DU4

  /** What `parse_line` returns: the image path, the quality, the optional diff path. */
  datatype Command = Command(image: string, quality: Quality, diff: Option<string>)

  const NoImagePath := "no image path given"

  /** The quality a second token names, if it is one of the three flags. */
  function FlagQuality(token: string): (q: Option<Quality>)
    ensures q == Some(Reset) <==> token == "--reset"
    ensures q == Some(High) <==> token == "--high"
    ensures q == Some(Low) <==> token == "--low"
  {
    if token == "--reset" then Some(Reset)
    else if token == "--high" then Some(High)
    else if token == "--low" then Some(Low)
    else None
  }

  /** The command the tokens of a line denote: the first token is the image,
      a flag in second place sets the quality and moves the diff to third place,
      and anything further is ignored. */
  function ReadCommand(ws: seq<string>): (r: Result<Command, string>)
    ensures r.Err? <==> ws == []
    ensures r.Err? ==> r.error == NoImagePath
    ensures r.Ok? ==> r.value.image == ws[0]
    ensures |ws| == 1 ==> r == Ok(Command(ws[0], High, None))
    ensures |ws| >= 2 && FlagQuality(ws[1]).Some? ==>
      r.value.quality == FlagQuality(ws[1]).value && r.value.diff == (if |ws| > 2 then Some(ws[2]) else None)
    ensures |ws| >= 2 && FlagQuality(ws[1]).None? ==> r == Ok(Command(ws[0], High, Some(ws[1])))
  {
    if ws == [] then Err(NoImagePath)
    else if |ws| == 1 then Ok(Command(ws[0], High, None))
    else
      match FlagQuality(ws[1])
      case Some(q) => Ok(Command(ws[0], q, if |ws| > 2 then Some(ws[2]) else None))
      case None => Ok(Command(ws[0], High, Some(ws[1])))
  }

  /** `parse_line`: reads the image path, then an optional flag, then the diff
      path, each with one call to the `split_whitespace` iterator. */
  method ParseLine(line: string) returns (r: Result<Command, string>)
    ensures r == ReadCommand(Words(line))
  {
    var split := new SplitWhitespace(line);
    ghost var ws := Words(line);
    var img := split.Next();
    if img.None? {
      return Err(NoImagePath);
    }
    var quality := High;
    var diff := split.Next();
    if diff == Some("--reset") {
      quality := Reset;
      diff := split.Next();
    } else if diff == Some("--high") {
      quality := High;
      diff := split.Next();
    } else if diff == Some("--low") {
      quality := Low;
      diff := split.Next();
    }
    assert |ws| > 2 ==> ws[1..][1..][0] == ws[2];
    r := Ok(Command(img.value, quality, diff));
  }

  /** The flag that names a quality. */
  function FlagText(q: Quality): string {
    match q
    case Reset => "--reset"
    case High => "--high"
    case Low => "--low"
  }

  /** Each flag is a single token. */
  lemma FlagIsWord(q: Quality)
    ensures IsWord(FlagText(q))
  {
    var t := FlagText(q);
    assert t[0] == '-' && t[1] == '-';
    assert forall i :: 2 <= i < |t| ==> 'a' <= t[i] <= 'z';
  }

  /** The tokens that spell out a command, with its quality always named. */
  function Tokens(c: Command): (ws: seq<string>)
    ensures |ws| >= 2 && ws[0] == c.image
  {
    [c.image, FlagText(c.quality)] + (if c.diff.Some? then [c.diff.value] else [])
  }

  /** Reading the tokens of a command gives the command back. */
  lemma ReadTokens(c: Command)
    ensures ReadCommand(Tokens(c)) == Ok(c)
  {
    var ws := Tokens(c);
    assert ws[1] == FlagText(c.quality);
    if c.diff.Some? {
      assert ws[2] == c.diff.value;
    }
  }

  /** A line that joins a command's tokens with spaces is parsed back to that
      command, when its paths are single words. */
  lemma ParseLineRoundTrip(c: Command)
    requires IsWord(c.image) && (c.diff.Some? ==> IsWord(c.diff.value))
    ensures ReadCommand(Words(Join(Tokens(c)))) == Ok(c)
  {
    var ws := Tokens(c);
    FlagIsWord(c.quality);
    WordsJoin(ws);
    ReadTokens(c);
  }

  /** Tokens after the diff path are ignored. */
  lemma ExtraTokensIgnored(ws: seq<string>, extra: seq<string>)
    requires |ws| >= 3 || (|ws| == 2 && FlagQuality(ws[1]).None?)
    ensures ReadCommand(ws + extra) == ReadCommand(ws)
  {
    assert (ws + extra)[0] == ws[0] && (ws + extra)[1] == ws[1];
    if |ws| >= 3 {
      assert (ws + extra)[2] == ws[2];
    }
  }

  /** What one turn of `run` does with a command: the waveform to display with,
      the diff image it keeps, and whether it resets the panel first. */
  datatype Plan = Plan(mode: WaveformMode, diff: Option<string>, reset: bool)

  function PlanFor(c: Command): (p: Plan)
    ensures p.mode == DU4 <==> c.quality == Low
    ensures p.reset <==> c.quality == Reset
    ensures c.quality == Reset ==> p.diff.None?
    ensures c.quality != Reset ==> p.diff == c.diff
  {
    match c.quality
    case Reset => Plan(GrayscaleClearing16, None, true)
    case High => Plan(GrayscaleClearing16, c.diff, false)
    case Low => Plan(DU4, c.diff, false)
  }

  type Byte = b: int | 0 <= b < 256
  type U16 = w: int | 0 <= w < 0x1_0000

  /** `d << 4 | x` on `u16` with `x < 16`: the shift drops the top nibble and
      leaves the low nibble clear, so the `or` adds `x`. */
  function ShiftIn(d: U16, x: int): (w: U16)
    requires 0 <= x < 16
  {
    (d * 16) % 0x1_0000 + x
  }

  /** `fold(0u16, |d, x| d << 4 | x as u16)` over the nibbles `px / 16`. */
  function FoldNibbles(s: seq<Byte>): U16 {
    if s == [] then 0 else ShiftIn(FoldNibbles(s[..|s| - 1]), s[|s| - 1] / 16)
  }

  function Pow16(n: nat): (p: nat)
    ensures p > 0
  {
    if n == 0 then 1 else 16 * Pow16(n - 1)
  }

  /** At most four nibbles never overflow the word: nothing is lost to the shift. */
  lemma {:induction false} FoldNibblesBound(s: seq<Byte>)
    requires |s| <= 4
    ensures FoldNibbles(s) < Pow16(|s|)
    ensures s != [] ==> FoldNibbles(s) == FoldNibbles(s[..|s| - 1]) * 16 + s[|s| - 1] / 16
    decreases |s|
  {
    if s != [] {
      var init := s[..|s| - 1];
      FoldNibblesBound(init);
      assert Pow16(|init|) <= 4096 by {
        assert Pow16(3) == 4096;
        if |init| < 3 {
          assert Pow16(2) == 256;
        }
      }
      assert FoldNibbles(init) * 16 < 0x1_0000;
    }
  }

  /** A full word: the earlier pixel sits in the more significant nibble. */
  lemma FullWord(s: seq<Byte>)
    requires |s| == 4
    ensures FoldNibbles(s) == (s[0] as int / 16) * 4096 + (s[1] as int / 16) * 256 + (s[2] as int / 16) * 16 + s[3] as int / 16
  {
    FoldNibblesBound(s);
    FoldNibblesBound(s[..3]);
    assert s[..3][..2] == s[..2];
    FoldNibblesBound(s[..2]);
    assert s[..2][..1] == s[..1];
    FoldNibblesBound(s[..1]);
    assert s[..1][..0] == [];
  }

  function Reversed<T>(s: seq<T>): (r: seq<T>)
    ensures |r| == |s| && forall i :: 0 <= i < |s| ==> r[i] == s[|s| - 1 - i]
  {
    seq(|s|, i requires 0 <= i < |s| => s[|s| - 1 - i])
  }

  /** `Vec::reverse`, in place. */
  method Reverse<T>(a: array<T>)
    modifies a
    ensures a[..] == Reversed(old(a[..]))
  {
    ghost var orig := a[..];
    var i := 0;
    while i < a.Length / 2
      invariant 0 <= i <= a.Length / 2
      invariant forall k :: 0 <= k < i ==> a[k] == orig[a.Length - 1 - k] && a[a.Length - 1 - k] == orig[k]
      invariant forall k :: i <= k < a.Length - i ==> a[k] == orig[k]
    {
      a[i], a[a.Length - 1 - i] := a[a.Length - 1 - i], a[i];
      i := i + 1;
    }
  }

  /** The first pixel of word `k` of a row of `n` pixels. */
  function WordStart(n: nat, k: nat): nat {
    if n >= 4 * k + 4 then n - 4 * k - 4 else 0
  }

  /** Reversing, cutting at `[lo, hi)` and reversing back is cutting the original
      at the mirrored bounds. */
  lemma ReversedChunk<T>(s: seq<T>, lo: nat, hi: nat)
    requires lo <= hi <= |s|
    ensures Reversed(Reversed(s)[lo..hi]) == s[|s| - hi..|s| - lo]
  {
    var c := Reversed(s)[lo..hi];
    var t := s[|s| - hi..|s| - lo];
    forall i | 0 <= i < hi - lo ensures Reversed(c)[i] == t[i] {
      ReversedChunkAt(s, c, lo, hi, i);
    }
  }

  lemma ReversedChunkAt<T>(s: seq<T>, c: seq<T>, lo: nat, hi: nat, i: nat)
    requires lo <= hi <= |s| && c == Reversed(s)[lo..hi] && i < hi - lo
    ensures Reversed(c)[i] == s[|s| - hi + i]
  {
    var r := Reversed(s);
    assert Reversed(c)[i] == c[hi - lo - 1 - i];
    assert c[hi - lo - 1 - i] == r[hi - 1 - i];
  }

  lemma PackStep(pxs: seq<Byte>, run: seq<Byte>, k: nat, hi: nat)
    requires k < (|pxs| + 3) / 4 && 4 * k < |pxs| && hi == (if 4 * k + 4 <= |pxs| then 4 * k + 4 else |pxs|)
    requires run == Reversed(pxs)[4 * k..hi]
    ensures FoldNibbles(Reversed(run)) == PackedWord(pxs, k)
  {
    ReversedChunk(pxs, 4 * k, hi);
  }

  /** Word `k` of a packed row: pixels `n - 4k - 4 .. n - 4k - 1` (clipped at 0)
      folded in order, so a short final word holds the first `n mod 4` pixels. */
  function PackedWord(pxs: seq<Byte>, k: nat): U16
    requires k < (|pxs| + 3) / 4
  {
    WordCount(|pxs|, k);
    FoldNibbles(pxs[WordStart(|pxs|, k)..|pxs| - 4 * k])
  }

  /** A word with four pixels after it: the earlier pixel in the more significant nibble. */
  lemma FullPackedWord(pxs: seq<Byte>, k: nat)
    requires 4 * k + 4 <= |pxs|
    ensures var n := |pxs|;
      k < (n + 3) / 4 &&
      PackedWord(pxs, k) == (pxs[n - 4 * k - 4] as int / 16) * 4096 + (pxs[n - 4 * k - 3] as int / 16) * 256 +
        (pxs[n - 4 * k - 2] as int / 16) * 16 + pxs[n - 4 * k - 1] as int / 16
  {
    var n := |pxs|;
    WordCount(n, k);
    var run := pxs[n - 4 * k - 4..n - 4 * k];
    FullWord(run);
  }

  /** The final word of a row whose length is not a multiple of four holds the
      first `n mod 4` pixels, in its low nibbles. */
  lemma ShortPackedWord(pxs: seq<Byte>)
    requires |pxs| % 4 != 0
    ensures var n := |pxs|;
      n / 4 < (n + 3) / 4 && PackedWord(pxs, n / 4) == FoldNibbles(pxs[..n % 4]) &&
      PackedWord(pxs, n / 4) < Pow16(n % 4)
  {
    var n := |pxs|;
    WordCount(n, n / 4);
    FoldNibblesBound(pxs[..n % 4]);
  }

  lemma WordCount(n: nat, k: nat)
    ensures k < (n + 3) / 4 <==> 4 * k < n
  {
  }

  lemma PackedExtend(pxs: seq<Byte>, words: seq<U16>, w: U16)
    requires |words| < (|pxs| + 3) / 4 && w == PackedWord(pxs, |words|)
    requires forall j :: 0 <= j < |words| ==> words[j] == PackedWord(pxs, j)
    ensures forall j :: 0 <= j < |words| + 1 ==> (words + [w])[j] == PackedWord(pxs, j)
  {
  }

  /** `luma8_pxs_into_packed_u16_vec`: the row is reversed in place, cut into
      runs of four, and each run is folded back to front into one word. */
  method PackPixels(pxs: seq<Byte>) returns (words: seq<U16>)
    ensures |words| == (|pxs| + 3) / 4
    ensures forall k :: 0 <= k < |words| ==> words[k] == PackedWord(pxs, k)
  {
    var n := |pxs|;
    var a := new Byte[n](i requires 0 <= i < n => pxs[i]);
    assert a[..] == pxs;
    Reverse(a);
    var m := (n + 3) / 4;
    words := [];
    var k := 0;
    while k < m
      invariant k <= m && |words| == k
      invariant a[..] == Reversed(pxs)
      invariant forall j :: 0 <= j < k ==> words[j] == PackedWord(pxs, j)
    {
      WordCount(n, k);
      var hi := if 4 * k + 4 <= n then 4 * k + 4 else n;
      var run := a[4 * k..hi];
      PackStep(pxs, run, k, hi);
      var w := FoldNibbles(Reversed(run));
      PackedExtend(pxs, words, w);
      words := words + [w];
      k := k + 1;
    }
  }

  /** Rows of an image: one byte per pixel. */
  type Row = seq<Byte>

  /** Row `i` of the image is sent when the older image has no row `i` or its
      row `i` differs. */
  predicate Differs(img: seq<Row>, older: seq<Row>, i: nat)
    requires i < |img|
  {
    i >= |older| || img[i] != older[i]
  }

  /** The rows of `img` before `n` that are sent, each with its index. */
  function Sent(img: seq<Row>, older: seq<Row>, n: nat): (r: seq<(nat, Row)>)
    requires n <= |img|
  {
    if n == 0 then []
    else Sent(img, older, n - 1) + (if Differs(img, older, n - 1) then [(n - 1, img[n - 1])] else [])
  }

  /** A row is sent exactly when it differs, and it keeps its index. */
  lemma {:induction false} SentMembers(img: seq<Row>, older: seq<Row>, n: nat)
    requires n <= |img|
    ensures forall p :: p in Sent(img, older, n) <==> p.0 < n && p.1 == img[p.0] && Differs(img, older, p.0)
  {
    if n > 0 {
      SentMembers(img, older, n - 1);
    }
  }

  /** The sent rows keep the image's order. */
  lemma {:induction false} SentInOrder(img: seq<Row>, older: seq<Row>, n: nat)
    requires n <= |img|
    ensures forall i, j :: 0 <= i < j < |Sent(img, older, n)| ==> Sent(img, older, n)[i].0 < Sent(img, older, n)[j].0
  {
    if n > 0 {
      SentInOrder(img, older, n - 1);
      SentMembers(img, older, n - 1);
      var prev := Sent(img, older, n - 1);
      forall i | 0 <= i < |prev| ensures prev[i].0 < n - 1 {
        assert prev[i] in prev;
      }
    }
  }

  /** With no older rows every row is sent, in order. */
  lemma {:induction false} SentAll(img: seq<Row>, n: nat)
    requires n <= |img|
    ensures |Sent(img, [], n)| == n && forall i :: 0 <= i < n ==> Sent(img, [], n)[i] == (i, img[i])
  {
    if n > 0 {
      SentAll(img, n - 1);
    }
  }

  /** `enumerate_different_rows`: the filter pulls one row from the older image
      for every row of the new one. */
  method DifferentRows(img: seq<Row>, diff: Option<seq<Row>>) returns (sent: seq<(nat, Row)>)
    ensures sent == Sent(img, if diff.Some? then diff.value else [], |img|)
  {
    var older := if diff.Some? then diff.value else [];
    sent := [];
    var i := 0;
    while i < |img|
      invariant 0 <= i <= |img| && sent == Sent(img, older, i)
    {
      var different := match if i < |older| then Some(older[i]) else None
        case Some(d) => img[i] != d
        case None => true;
      if different {
        sent := sent + [(i, img[i])];
      }
      i := i + 1;
    }
  }
}
