/**
 * Layout arithmetic shared by the display lines: cutting a sequence into
 * fixed-size pieces (line breaks every N glyphs, N entries per line of a
 * comma list) and the "first K, then `& N more`" truncation.
 */
module Layout {
  import opened Text

  // ---------------------------------------------------------------------------
  // Fixed-size pieces
  // ---------------------------------------------------------------------------

  /** `s` cut into consecutive pieces of `k` elements; the last piece holds the rest. */
  function Chunks<T>(s: seq<T>, k: nat): (r: seq<seq<T>>)
    requires k > 0
    ensures |r| >= 1
    decreases |s|
  {
    if |s| <= k then [s] else [s[..k]] + Chunks(s[k..], k)
  }

  /** The pieces laid end to end. */
  function Flatten<T>(parts: seq<seq<T>>): seq<T>
  {
    if parts == [] then [] else parts[0] + Flatten(parts[1..])
  }

  /** Cutting into pieces loses nothing and reorders nothing. */
  lemma {:induction false} ChunksFlatten<T>(s: seq<T>, k: nat)
    requires k > 0
    ensures Flatten(Chunks(s, k)) == s
    decreases |s|
  {
    if |s| > k {
      ChunksFlatten(s[k..], k);
      assert Chunks(s, k)[1..] == Chunks(s[k..], k);
      assert s == s[..k] + s[k..];
    }
  }

  /** Every piece but the last holds exactly `k` elements, and the last holds between one and `k` unless `s` is empty. */
  lemma {:induction false} ChunksShape<T>(s: seq<T>, k: nat)
    requires k > 0
    ensures var r := Chunks(s, k);
      (forall i :: 0 <= i < |r| - 1 ==> |r[i]| == k)
      && |r[|r| - 1]| <= k && (s != [] ==> |r[|r| - 1]| > 0)
    decreases |s|
  {
    if |s| > k {
      ChunksShape(s[k..], k);
      assert Chunks(s, k)[1..] == Chunks(s[k..], k);
    }
  }

  lemma ModShift(a: nat, k: nat)
    requires k > 0
    ensures (a + k) % k == a % k
  {
    var m := (a + k) / k - a / k - 1;
    assert m * k == a % k - (a + k) % k;
  }

  /**
   * Joining the pieces of `p + [c]`: one more element on the last piece,
   * or a new piece when `p` already fills whole pieces.
   */
  lemma JoinChunksSnoc(p: string, c: char, k: nat, sep: string)
    requires k > 0
    ensures Join(Chunks(p + [c], k), sep)
      == if |p| > 0 && |p| % k == 0 then Join(Chunks(p, k), sep) + sep + [c] else Join(Chunks(p, k), sep) + [c]
  {
    var ch := Chunks(p, k);
    ChunksSnoc(p, c, k);
    if |p| > 0 && |p| % k == 0 {
      JoinSnocPart(ch, [c], sep);
    } else {
      JoinExtendLast(ch, [c], sep);
    }
  }

  /** One more character of input adds itself to the broken text, after a newline when it starts a new piece. */
  lemma BreakStep(input: string, i: nat, k: nat)
    requires i < |input|
    ensures input[..i + 1] == input[..i] + [input[i]]
    ensures k > 0 ==>
              Join(Chunks(input[..i + 1], k), "\n")
              == if i > 0 && i % k == 0 then Join(Chunks(input[..i], k), "\n") + "\n" + [input[i]] else Join(Chunks(input[..i], k), "\n") + [input[i]]
  {
    assert input[..i + 1] == input[..i] + [input[i]];
    if k > 0 {
      JoinChunksSnoc(input[..i], input[i], k, "\n");
    }
  }

  function Abs(i: int): nat
  {
    if i < 0 then -i else i
  }

  /**
   * `addLineBreakEvery`: a newline before every index that is a positive
   * multiple of the chunk size. JavaScript's `index % 0` is NaN, so a zero
   * chunk size inserts nothing; a negative one breaks like its magnitude.
   */
  method AddLineBreakEvery(input: string, chunkSize: int) returns (r: string)
    ensures input == [] || |input| <= chunkSize || chunkSize == 0 ==> r == input
    ensures chunkSize != 0 ==> r == Join(Chunks(input, Abs(chunkSize)), "\n")
  {
    if input == [] || |input| <= chunkSize {
      if chunkSize != 0 {
        assert Chunks(input, Abs(chunkSize)) == [input];
      }
      return input;
    }
    r := [];
    var i := 0;
    while i < |input|
      invariant 0 <= i <= |input|
      invariant chunkSize == 0 ==> r == input[..i]
      invariant chunkSize != 0 ==> r == Join(Chunks(input[..i], Abs(chunkSize)), "\n")
    {
      BreakStep(input, i, Abs(chunkSize));
      if i > 0 && chunkSize != 0 && i % Abs(chunkSize) == 0 {
        r := r + "\n";
      }
      r := r + [input[i]];
      i := i + 1;
    }
    assert input[..i] == input;
  }

  /** Text without newlines comes back from the broken text: its lines are the pieces, which lay end to end as the input. */
  lemma LineBreaksRoundTrip(input: string, k: nat)
    requires k > 0 && '\n' !in input
    ensures Split(Join(Chunks(input, k), "\n"), '\n') == Chunks(input, k)
    ensures Flatten(Split(Join(Chunks(input, k), "\n"), '\n')) == input
  {
    ChunksFlatten(input, k);
    var parts := Chunks(input, k);
    forall i | 0 <= i < |parts|
      ensures '\n' !in parts[i]
    {
      ChunkWithin(input, k, i);
    }
    SplitJoin(parts, '\n');
  }

  /** Every piece is a slice of the input. */
  lemma {:induction false} ChunkWithin<T>(s: seq<T>, k: nat, i: nat)
    requires k > 0 && i < |Chunks(s, k)|
    ensures multiset(Chunks(s, k)[i]) <= multiset(s)
    ensures forall x :: x in Chunks(s, k)[i] ==> x in s
    decreases |s|
  {
    if |s| > k && i > 0 {
      assert Chunks(s, k)[i] == Chunks(s[k..], k)[i - 1];
      ChunkWithin(s[k..], k, i - 1);
      assert s == s[..k] + s[k..];
      assert multiset(s) == multiset(s[..k]) + multiset(s[k..]);
    } else if |s| > k {
      assert s == s[..k] + s[k..];
      assert multiset(s) == multiset(s[..k]) + multiset(s[k..]);
    }
  }

  // ---------------------------------------------------------------------------
  // Comma lists wrapped every N entries
  // ---------------------------------------------------------------------------

  /** Each piece joined with `", "`. */
  function JoinEach(parts: seq<seq<string>>, sep: string): (r: seq<string>)
    ensures |r| == |parts|
    ensures forall i :: 0 <= i < |parts| ==> r[i] == Join(parts[i], sep)
  {
    seq(|parts|, i requires 0 <= i < |parts| => Join(parts[i], sep))
  }

  /** The reference layout: entries joined with `", "` inside a line, lines joined with `",\n"`. */
  function WrappedText(values: seq<string>, k: nat): string
    requires k > 0
  {
    Join(JoinEach(Chunks(values, k), ", "), ",\n")
  }

  lemma JoinSnocPart(parts: seq<string>, x: string, sep: string)
    requires |parts| >= 1
    ensures Join(parts + [x], sep) == Join(parts, sep) + sep + x
    decreases |parts|
  {
    if |parts| > 1 {
      JoinSnocPart(parts[1..], x, sep);
      assert (parts + [x])[1..] == parts[1..] + [x];
    }
  }

  lemma JoinExtendLast(parts: seq<string>, x: string, sep: string)
    requires |parts| >= 1
    ensures Join(parts[..|parts| - 1] + [parts[|parts| - 1] + x], sep) == Join(parts, sep) + x
    decreases |parts|
  {
    if |parts| > 1 {
      JoinExtendLast(parts[1..], x, sep);
      assert (parts[..|parts| - 1] + [parts[|parts| - 1] + x])[1..] == parts[1..][..|parts[1..]| - 1] + [parts[1..][|parts[1..]| - 1] + x];
    }
  }

  /** Pieces of `p + [v]`: `v` joins the last piece, or starts a new one once `p` fills whole pieces. */
  lemma {:induction false} ChunksSnoc<T>(p: seq<T>, v: T, k: nat)
    requires k > 0
    ensures var c := Chunks(p, k);
      Chunks(p + [v], k) == if |p| > 0 && |p| % k == 0 then c + [[v]] else c[..|c| - 1] + [c[|c| - 1] + [v]]
    decreases |p|
  {
    var c := Chunks(p, k);
    if |p| < k {
      assert Chunks(p + [v], k) == [p + [v]];
    } else if |p| == k {
      assert (p + [v])[..k] == p && (p + [v])[k..] == [v];
      assert Chunks(p + [v], k) == [p] + Chunks([v], k);
    } else {
      ChunksSnoc(p[k..], v, k);
      ChunksSnocLater(p, v, k);
    }
  }

  /** The step of `ChunksSnoc` past the first piece: what holds for `p[k..]` holds for `p`. */
  lemma ChunksSnocLater<T>(p: seq<T>, v: T, k: nat)
    requires k > 0 && |p| > k
    requires var cq := Chunks(p[k..], k);
      Chunks(p[k..] + [v], k) == if |p[k..]| % k == 0 then cq + [[v]] else cq[..|cq| - 1] + [cq[|cq| - 1] + [v]]
    ensures var c := Chunks(p, k);
      Chunks(p + [v], k) == if |p| % k == 0 then c + [[v]] else c[..|c| - 1] + [c[|c| - 1] + [v]]
  {
    var c := Chunks(p, k);
    var q := p[k..];
    var cq := Chunks(q, k);
    assert Chunks(p + [v], k) == [p[..k]] + Chunks(q + [v], k) by {
      assert (p + [v])[..k] == p[..k] && (p + [v])[k..] == q + [v];
    }
    assert c == [p[..k]] + cq;
    assert |p| % k == |q| % k by {
      ModShift(|q|, k);
    }
    if |q| % k != 0 {
      ConsOntoLast(p[..k], cq, [v]);
    }
  }

  /** Putting a piece in front commutes with extending the last piece. */
  lemma ConsOntoLast<T>(head: seq<T>, cq: seq<seq<T>>, x: seq<T>)
    requires |cq| >= 1
    ensures var c := [head] + cq;
      [head] + (cq[..|cq| - 1] + [cq[|cq| - 1] + x]) == c[..|c| - 1] + [c[|c| - 1] + x]
  {
    var c := [head] + cq;
    assert c[..|c| - 1] == [head] + cq[..|cq| - 1];
    assert c[|c| - 1] == cq[|cq| - 1];
  }

  /** Joining the list `p + [v]`: `v` follows `", "` inside a line or `",\n"` at a line start. */
  lemma WrappedSnoc(p: seq<string>, v: string, k: nat)
    requires k > 0 && p != []
    ensures WrappedText(p + [v], k)
      == WrappedText(p, k) + (if |p| % k == 0 then ",\n" else ", ") + v
  {
    var c := Chunks(p, k);
    ChunksSnoc(p, v, k);
    if |p| % k == 0 {
      assert JoinEach(c + [[v]], ", ") == JoinEach(c, ", ") + [v];
      JoinSnocPart(JoinEach(c, ", "), v, ",\n");
    } else {
      var last := c[|c| - 1];
      ChunksShape(p, k);
      assert last != [];
      JoinSnocPart(last, v, ", ");
      var je := JoinEach(c, ", ");
      var tail := ", " + v;
      assert Join(last + [v], ", ") == je[|je| - 1] + tail;
      assert Chunks(p + [v], k) == c[..|c| - 1] + [last + [v]];
      assert JoinEach(c[..|c| - 1] + [last + [v]], ", ") == je[..|je| - 1] + [je[|je| - 1] + tail];
      JoinExtendLast(je, tail, ",\n");
      assert WrappedText(p + [v], k) == Join(je, ",\n") + tail;
    }
  }

  /** The text `buildWrappedCommaList` uses for an empty list. */
  const NoneLabel := "None"

  /**
   * `buildWrappedCommaList`: "None" for an empty list; otherwise the
   * entries separated by `", "`, with `",\n"` before every entry whose
   * index is a positive multiple of `max(1, floor(entriesPerLine))`.
   */
  method BuildWrappedCommaList(values: seq<string>, entriesPerLine: int) returns (r: string)
    ensures values == [] ==> r == NoneLabel
    ensures values != [] ==> r == WrappedText(values, if entriesPerLine < 1 then 1 else entriesPerLine)
  {
    if values == [] {
      return NoneLabel;
    }
    var perLine := if entriesPerLine < 1 then 1 else entriesPerLine;
    r := values[0];
    assert WrappedText(values[..1], perLine) == values[0] by {
      assert Chunks(values[..1], perLine) == [values[..1]];
    }
    var index := 1;
    while index < |values|
      invariant 1 <= index <= |values|
      invariant r == WrappedText(values[..index], perLine)
    {
      WrappedSnoc(values[..index], values[index], perLine);
      r := r + (if index % perLine == 0 then ",\n" else ", ") + values[index];
      assert values[..index + 1] == values[..index] + [values[index]];
      index := index + 1;
    }
    assert values[..index] == values;
  }

  // ---------------------------------------------------------------------------
  // "First K, then & N more"
  // ---------------------------------------------------------------------------

  /** The shown prefix and the count left out. */
  datatype Shown<T> = Shown(visible: seq<T>, hidden: nat)

  /** `Math.floor(Math.max(0, cap))`, the count `slice(0, cap)` keeps at most. */
  function CapCount(cap: real): (n: nat)
    ensures cap <= 0.0 ==> n == 0
    ensures cap > 0.0 ==> n as real <= cap < n as real + 1.0
  {
    if cap <= 0.0 then 0 else cap.Floor
  }

  /** `items.slice(0, Math.max(0, cap))` and `items.length - visible.length`. */
  function Truncate<T>(items: seq<T>, cap: real): (r: Shown<T>)
    ensures |r.visible| <= CapCount(cap) && |r.visible| <= |items|
    ensures |r.visible| == CapCount(cap) || |r.visible| == |items|
    ensures r.visible + items[|r.visible|..] == items
    ensures r.hidden == |items| - |r.visible|
  {
    var n := if CapCount(cap) < |items| then CapCount(cap) else |items|;
    assert items[..n] + items[n..] == items;
    Shown(items[..n], |items| - n)
  }

  /** Something is left out exactly when the list is longer than the cap allows; nothing is shown under a zero cap. */
  lemma TruncateHidden<T>(items: seq<T>, cap: real)
    ensures Truncate(items, cap).hidden > 0 <==> |items| > CapCount(cap)
    ensures cap < 1.0 ==> Truncate(items, cap).visible == []
    ensures Truncate(items, cap).visible == items[..|Truncate(items, cap).visible|]
  {
  }

  /** The shown entries followed by the left-out ones are the list again. */
  lemma TruncateRoundTrip<T>(items: seq<T>, cap: real)
    ensures var t := Truncate(items, cap);
      |items| - t.hidden == |t.visible| && t.visible + items[|items| - t.hidden..] == items
  {
  }
}
