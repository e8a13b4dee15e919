/** `RAGEngine._split_text`: the character-window chunker. The text is normalised, then cut into
    windows of at most `chunkSize` characters, each window that does not reach the end of the
    text being pulled back to just after its last `.`; the windows are stripped and the empty
    ones dropped.

    The next window starts at `max(end - overlap, end)`, which for a non-negative `overlap` is
    `end` itself: whatever the parameter's name suggests, the windows tile the text without
    overlapping (`OverlapIgnored`, `WindowsTile`). */
module Chunking {
  import opened Text

  /** `text.replace("\r", " ").replace("\n\n", "\n")`: no carriage return survives, and the
      text never grows. */
  function Normalize(text: string): (t: string)
    ensures '\r' !in t
    ensures |t| <= |text|
  {
    Replace(Replace(text, "\r", " "), "\n\n", "\n")
  }

  lemma {:induction false} NoCharNoSubstring(c: char, s: string)
    requires c !in s
    ensures !IsSubstring([c], s)
    decreases |s|
  {
    if s != [] {
      assert s[0] in s;
      assert forall d :: d in s[1..] ==> d in s;
      NoCharNoSubstring(c, s[1..]);
    }
  }

  /** Text with no carriage return and no two newlines in a row is already normal. */
  lemma NormalizeKeepsNormalText(text: string)
    requires '\r' !in text && !IsSubstring("\n\n", text)
    ensures Normalize(text) == text
  {
    NoCharNoSubstring('\r', text);
    ReplaceAbsent(text, "\r", " ");
    ReplaceAbsent(text, "\n\n", "\n");
  }

  /** Each carriage return becomes a space, in place: for text with no two newlines in a row,
      normalising maps `\r` to a space and keeps every other character. */
  lemma NormalizeMapsCarriageReturn(text: string)
    requires !IsSubstring("\n\n", text)
    ensures |Normalize(text)| == |text|
    ensures forall i :: 0 <= i < |text| ==> Normalize(text)[i] == if text[i] == '\r' then ' ' else text[i]
  {
    var s := Replace(text, "\r", " ");
    assert "\r" == ['\r'] && " " == [' '];
    ReplaceChar(text, '\r', ' ');
    if IsSubstring("\n\n", s) {
      var i := SubstringAt("\n\n", s);
      assert s[i] == s[i..i + 2][0] && s[i + 1] == s[i..i + 2][1];
      assert text[i..i + 2] == "\n\n";
      SubstringOfSlice("\n\n", text, i);
      assert false;
    }
    ReplaceAbsent(s, "\n\n", "\n");
  }

  /** One pass of the replacement only halves a run of newlines: a run of three keeps a blank
      line, so blank lines are not all removed. */
  lemma NormalizeKeepsBlankLine()
    ensures Normalize("\n\n\n") == "\n\n"
  {
    var s := "\n\n\n";
    NoCharNoSubstring('\r', s);
    ReplaceAbsent(s, "\r", " ");
    assert IsPrefix("\n\n", s);
    assert s[2..] == "\n";
    assert !IsPrefix("\n\n", "\n");
    assert Replace("\n", "\n\n", "\n") == "\n";
  }

  /** Where the window that starts at `start` ends (lines 84-91 of `_split_text`): it never passes
      the end of the text nor holds more than `size` characters, and it reaches the end of the
      text when the text ends within `size` characters. */
  function WindowEnd(t: string, start: nat, size: int): (end: nat)
    requires start < |t| && size > 0
    ensures start < end <= |t| && end - start <= size
    ensures start + size >= |t| ==> end == |t|
  {
    var end := Min(start + size, |t|);
    var lastPeriod := RFind(t[start..end], '.');
    if lastPeriod != -1 && end != |t| then start + lastPeriod + 1 else end
  }

  /** A window that stops short of the end of the text is the full `size` characters when they
      hold no `.`, and otherwise ends just after the last `.` among them. */
  lemma WindowEndSnaps(t: string, start: nat, size: int)
    requires start < |t| && size > 0 && start + size < |t|
    ensures var end := WindowEnd(t, start, size);
            && ('.' !in t[start..start + size] ==> end == start + size)
            && ('.' in t[start..start + size] ==> t[end - 1] == '.' && '.' !in t[end..start + size])
  {
    var chunk := t[start..start + size];
    var lastPeriod := RFind(chunk, '.');
    RFindFacts(chunk, '.');
    if lastPeriod != -1 {
      assert chunk[lastPeriod] == t[start + lastPeriod];
      assert chunk[lastPeriod + 1..] == t[start + lastPeriod + 1..start + size];
    }
  }

  /** `max(end - overlap, end)`: where the next window starts. */
  function NextStart(end: nat, overlap: int): (next: nat)
    ensures next >= end
    ensures overlap >= 0 ==> next == end
  {
    if end - overlap > end then end - overlap else end
  }

  /** The raw windows `text[start:end]` of the loop, from `start` on. */
  function Windows(t: string, start: nat, size: int, overlap: int): seq<string>
    requires size > 0
    decreases |t| - start
  {
    if start >= |t| then []
    else
      var end := WindowEnd(t, start, size);
      [t[start..end]] + Windows(t, NextStart(end, overlap), size, overlap)
  }

  /** No window is empty, and none is longer than `size`. */
  lemma {:induction false} WindowsBounded(t: string, start: nat, size: int, overlap: int)
    requires size > 0
    ensures forall w :: w in Windows(t, start, size, overlap) ==> 0 < |w| <= size
    decreases |t| - start
  {
    if start < |t| {
      var end := WindowEnd(t, start, size);
      var tail := Windows(t, NextStart(end, overlap), size, overlap);
      assert Windows(t, start, size, overlap) == [t[start..end]] + tail;
      WindowsBounded(t, NextStart(end, overlap), size, overlap);
    }
  }

  function Concat(ws: seq<string>): string
  {
    if ws == [] then [] else ws[0] + Concat(ws[1..])
  }

  /** A non-negative overlap changes nothing: the windows are those of overlap 0. */
  lemma {:induction false} OverlapIgnored(t: string, start: nat, size: int, overlap: int)
    requires size > 0 && overlap >= 0
    ensures Windows(t, start, size, overlap) == Windows(t, start, size, 0)
    decreases |t| - start
  {
    if start < |t| {
      var end := WindowEnd(t, start, size);
      OverlapIgnored(t, end, size, overlap);
    }
  }

  /** With a non-negative overlap the windows are adjacent and, put back together, give exactly
      the text from `start` on; the last one ends at the end of the text. */
  lemma {:induction false} WindowsTile(t: string, start: nat, size: int, overlap: int)
    requires size > 0 && overlap >= 0 && start <= |t|
    ensures Concat(Windows(t, start, size, overlap)) == t[start..]
    decreases |t| - start
  {
    if start < |t| {
      var end := WindowEnd(t, start, size);
      var tail := Windows(t, end, size, overlap);
      assert Windows(t, start, size, overlap) == [t[start..end]] + tail;
      WindowsTile(t, end, size, overlap);
      assert t[start..] == t[start..end] + t[end..];
    }
  }

  /** The `i`-th window is the span `t[a..b]` of the text, where `b` is the end the loop computes
      for a window starting at `a`; a window that is not the last one stops short of the end of
      the text. */
  lemma {:induction false} WindowAt(t: string, start: nat, size: int, overlap: int, i: nat)
    returns (a: nat, b: nat)
    requires size > 0 && i < |Windows(t, start, size, overlap)|
    ensures start <= a < b <= |t| && b == WindowEnd(t, a, size)
    ensures Windows(t, start, size, overlap)[i] == t[a..b]
    ensures i + 1 < |Windows(t, start, size, overlap)| ==> b < |t|
    decreases |t| - start
  {
    var end := WindowEnd(t, start, size);
    var next := NextStart(end, overlap);
    var tail := Windows(t, next, size, overlap);
    assert Windows(t, start, size, overlap) == [t[start..end]] + tail;
    if i == 0 {
      a, b := start, end;
      if tail != [] {
        assert next < |t|;
      }
    } else {
      a, b := WindowAt(t, next, size, overlap, i - 1);
    }
  }

  /** A window that is not the last one was either the full `size` characters with no `.` in
      them, or was cut just after its last `.`, and then the characters cut off, with which the
      next window begins, hold no `.`. */
  lemma InnerWindowSnapped(t: string, start: nat, size: int, overlap: int, i: nat)
    returns (a: nat, b: nat)
    requires size > 0 && i + 1 < |Windows(t, start, size, overlap)|
    ensures a < b <= a + size < |t| && Windows(t, start, size, overlap)[i] == t[a..b]
    ensures '.' !in t[a..b] ==> b - a == size
    ensures '.' in t[a..b] ==> t[b - 1] == '.' && '.' !in t[b..a + size]
  {
    a, b := WindowAt(t, start, size, overlap, i);
    assert a + size < |t|;
    WindowEndSnaps(t, a, size);
    if '.' in t[a..a + size] {
      assert t[b - 1] == t[a..b][b - 1 - a];
    } else {
      assert forall c :: c in t[a..b] ==> c in t[a..a + size];
    }
  }

  function StripAll(ws: seq<string>): (ss: seq<string>)
    ensures |ss| == |ws|
  {
    if ws == [] then [] else [Strip(ws[0])] + StripAll(ws[1..])
  }

  /** `[c for c in chunks if c]` */
  function Keep(cs: seq<string>): seq<string>
  {
    if cs == [] then [] else (if cs[0] == [] then [] else [cs[0]]) + Keep(cs[1..])
  }

  /** The filter keeps only non-empty strings, and only strings that have a property every
      candidate has. */
  lemma {:induction false} KeepOnly(cs: seq<string>, p: string -> bool)
    requires forall i :: 0 <= i < |cs| ==> p(cs[i])
    ensures forall j :: 0 <= j < |Keep(cs)| ==> Keep(cs)[j] != [] && p(Keep(cs)[j])
  {
    if cs != [] {
      KeepOnly(cs[1..], p);
    }
  }

  /** The filter works element by element: filtering `a + b` filters `a`, then `b`. */
  lemma {:induction false} KeepAppend(a: seq<string>, b: seq<string>)
    ensures Keep(a + b) == Keep(a) + Keep(b)
    decreases |a|
  {
    if a == [] {
      assert a + b == b;
    } else {
      assert (a + b)[0] == a[0];
      assert (a + b)[1..] == a[1..] + b;
      KeepAppend(a[1..], b);
      AppendAssoc(if a[0] == [] then [] else [a[0]], Keep(a[1..]), Keep(b));
    }
  }

  /** Every non-empty candidate is kept, at the position given by the number of non-empty
      candidates before it. */
  lemma KeepKeeps(cs: seq<string>, i: nat)
    requires i < |cs| && cs[i] != []
    ensures |Keep(cs[..i])| < |Keep(cs)|
    ensures Keep(cs)[|Keep(cs[..i])|] == cs[i]
  {
    assert cs == cs[..i] + ([cs[i]] + cs[i + 1..]);
    KeepAppend(cs[..i], [cs[i]] + cs[i + 1..]);
    assert ([cs[i]] + cs[i + 1..])[1..] == cs[i + 1..];
  }

  /** Candidates keep their order: a non-empty candidate is kept before any later one. */
  lemma KeepOrder(cs: seq<string>, i: nat, j: nat)
    requires i < j <= |cs| && cs[i] != []
    ensures |Keep(cs[..i])| < |Keep(cs[..j])|
  {
    assert cs[..j][..i] == cs[..i];
    KeepKeeps(cs[..j], i);
  }

  lemma {:induction false} StripAllClean(ws: seq<string>)
    ensures |StripAll(ws)| == |ws|
    ensures forall i :: 0 <= i < |ws| ==> StripAll(ws)[i] == Strip(ws[i]) && Strip(StripAll(ws)[i]) == StripAll(ws)[i]
  {
    if ws != [] {
      StripIdempotent(ws[0]);
      StripAllClean(ws[1..]);
    }
  }

  /** Each stripped window is found in the text. */
  lemma StrippedWindowInText(t: string, start: nat, size: int, overlap: int, i: nat)
    requires size > 0 && i < |Windows(t, start, size, overlap)|
    ensures i < |StripAll(Windows(t, start, size, overlap))|
    ensures IsSubstring(StripAll(Windows(t, start, size, overlap))[i], t)
  {
    var ws := Windows(t, start, size, overlap);
    StripAllClean(ws);
    var a, b := WindowAt(t, start, size, overlap, i);
    StripOfSlice(t, a, b);
  }

  /** What `_split_text(text, size, overlap)` returns. */
  function SplitChunks(text: string, size: int, overlap: int): seq<string>
    requires size > 0
  {
    Keep(StripAll(Windows(Normalize(text), 0, size, overlap)))
  }

  /** Every chunk is non-empty and already stripped. */
  lemma ChunksClean(text: string, size: int, overlap: int)
    requires size > 0
    ensures var cs := SplitChunks(text, size, overlap);
            forall j :: 0 <= j < |cs| ==> cs[j] != [] && Strip(cs[j]) == cs[j]
  {
    var ss := StripAll(Windows(Normalize(text), 0, size, overlap));
    StripAllClean(Windows(Normalize(text), 0, size, overlap));
    KeepOnly(ss, c => Strip(c) == c);
  }

  /** Every chunk is found in the normalised text. */
  lemma ChunksAreSpans(text: string, size: int, overlap: int)
    requires size > 0
    ensures var cs := SplitChunks(text, size, overlap);
            forall j :: 0 <= j < |cs| ==> IsSubstring(cs[j], Normalize(text))
  {
    var t := Normalize(text);
    var ss := StripAll(Windows(t, 0, size, overlap));
    StripAllClean(Windows(t, 0, size, overlap));
    forall i | 0 <= i < |ss|
      ensures IsSubstring(ss[i], t)
    {
      StrippedWindowInText(t, 0, size, overlap, i);
    }
    KeepOnly(ss, c => IsSubstring(c, t));
  }

  /** Every window that is not blank gives a chunk, its stripped text, and the chunks follow the
      window order: a window's chunk comes after the chunks of the windows before it. */
  lemma WindowKept(text: string, size: int, overlap: int, i: nat)
    requires size > 0 && i < |Windows(Normalize(text), 0, size, overlap)|
    requires Strip(Windows(Normalize(text), 0, size, overlap)[i]) != []
    ensures var ss := StripAll(Windows(Normalize(text), 0, size, overlap));
            && |Keep(ss[..i])| < |SplitChunks(text, size, overlap)|
            && SplitChunks(text, size, overlap)[|Keep(ss[..i])|] == Strip(Windows(Normalize(text), 0, size, overlap)[i])
  {
    var ws := Windows(Normalize(text), 0, size, overlap);
    StripAllClean(ws);
    KeepKeeps(StripAll(ws), i);
  }

  /** A normalised text that fits in one window gives one chunk, the stripped text, unless it is
      all whitespace (the empty text included), which gives none. */
  lemma {:induction false} ShortText(text: string, size: int, overlap: int)
    requires size > 0 && |Normalize(text)| <= size
    ensures SplitChunks(text, size, overlap) == if Strip(Normalize(text)) == [] then [] else [Strip(Normalize(text))]
  {
    var t := Normalize(text);
    if t != [] {
      var end := WindowEnd(t, 0, size);
      assert end == |t| && t[0..end] == t;
      assert Windows(t, end, size, overlap) == [];
      assert Windows(t, 0, size, overlap) == [t];
      assert StripAll([t]) == [Strip(t)];
      assert Keep([Strip(t)]) == (if Strip(t) == [] then [] else [Strip(t)]) + Keep([]);
    }
  }

  /** `_split_text`: the loop that cuts the normalised text into stripped windows, followed by the
      filter that drops the empty ones. It ends for every positive `chunkSize`, since each window
      holds at least one character and the next one starts where it ends or later. */
  method SplitText(text: string, chunkSize: int, overlap: int) returns (chunks: seq<string>)
    requires chunkSize > 0
    ensures chunks == SplitChunks(text, chunkSize, overlap)
    ensures forall j :: 0 <= j < |chunks| ==> chunks[j] != [] && Strip(chunks[j]) == chunks[j]
  {
    var t := Normalize(text);
    var pieces: seq<string> := [];
    var start: nat := 0;
    var length := |t|;
    while start < length
      invariant pieces + StripAll(Windows(t, start, chunkSize, overlap)) == StripAll(Windows(t, 0, chunkSize, overlap))
      decreases length - start
    {
      var end := Min(start + chunkSize, length);
      var chunk := t[start..end];
      var lastPeriod := RFind(chunk, '.');
      if lastPeriod != -1 && end != length {
        end := start + lastPeriod + 1;
        chunk := t[start..end];
      }
      PieceStep(t, start, chunkSize, overlap, end, chunk);
      ghost var later := StripAll(Windows(t, NextStart(end, overlap), chunkSize, overlap));
      AppendAssoc(pieces, [Strip(chunk)], later);
      pieces := pieces + [Strip(chunk)];
      start := NextStart(end, overlap);
    }
    assert Windows(t, start, chunkSize, overlap) == [];
    assert pieces + StripAll([]) == pieces;
    chunks := Keep(pieces);
    ChunksClean(text, chunkSize, overlap);
  }

  /** One turn of the loop in `SplitText` produces the next stripped window. */
  lemma PieceStep(t: string, start: nat, size: int, overlap: int, end: nat, chunk: string)
    requires start < |t| && size > 0
    requires end == WindowEnd(t, start, size) && chunk == t[start..end]
    ensures StripAll(Windows(t, start, size, overlap))
            == [Strip(chunk)] + StripAll(Windows(t, NextStart(end, overlap), size, overlap))
  {
    var tail := Windows(t, NextStart(end, overlap), size, overlap);
    assert Windows(t, start, size, overlap) == [chunk] + tail;
    assert StripAll([chunk] + tail) == [Strip(chunk)] + StripAll(tail);
  }
}
