/** Text of XML documents in tinyxml2.cpp: entities written by the printer, and decoded in place by StrPair::GetStr. */
module XmlText {
  import opened Prelude

  const NUL: char := '\U{0}'
  const CR: char := '\r'
  const LF: char := '\n'

  /**
   * Character references such as "&#8364;": the bytes one stands for and its length, for a text that starts with
   * "&#".
   */
  datatype CharRefs = CharRefs(at: string -> Option<(string, nat)>)

  /** A reference takes at least as many bytes as it stands for. */
  ghost predicate Sound(refs: CharRefs)
  {
    forall t: string {:trigger refs.at(t)} :: refs.at(t).Some? ==>
        |refs.at(t).value.0| <= refs.at(t).value.1
        && 0 < refs.at(t).value.1 <= |t|
  }

  // ---------- The entity table ----------

  function EntityPattern(c: char): string
  {
    if c == '"' then "quot" else if c == '&' then "amp" else if c == '\'' then "apos" else if c == '<' then "lt"
        else if c == '>' then "gt" else ""
  }

  function Reference(c: char): (r: string)
    ensures |r| >= 2
  {
    "&" + EntityPattern(c) + ";"
  }

  /** t starts with the entity of c, after its ampersand. */
  predicate StartsEntity(t: string, c: char)
  {
    var p := EntityPattern(c);
    p != "" && |p| + 1 < |t| && t[1..|p| + 1] == p && t[|p| + 1] == ';'
  }

  /** The entity at the front of t, and its length: the table is searched in its order. */
  function EntityAt(t: string): Option<(char, nat)>
  {
    if StartsEntity(t, '"') then Some(('"', 6))
    else if StartsEntity(t, '&') then Some(('&', 5))
    else if StartsEntity(t, '\'') then Some(('\'', 6))
    else if StartsEntity(t, '<') then Some(('<', 4))
    else if StartsEntity(t, '>') then Some(('>', 4))
    else None
  }

  // ---------- Printing ----------

  /** The characters written as entities: in texts, which are restricted, quotes are not. */
  predicate Special(c: char, restricted: bool)
  {
    c == '&' || c == '<' || c == '>' || (!restricted && (c == '"' || c == '\''))
  }

  function Escaped(s: string, restricted: bool): string
  {
    if s == [] then []
    else (if Special(s[0], restricted) then Reference(s[0]) else [s[0]]) + Escaped(s[1..], restricted)
  }

  lemma EscapedFrom(done: string, s: string, restricted: bool, q: nat)
    requires q < |s|
    ensures done + Escaped(s[q..], restricted) ==
      done + (if Special(s[q], restricted) then Reference(s[q]) else [s[q]]) + Escaped(s[q + 1..], restricted)
  {
    hide Special, Reference;
    assert s[q..][1..] == s[q + 1..];
    var piece := if Special(s[q], restricted) then Reference(s[q]) else [s[q]];
    assert done + (piece + Escaped(s[q + 1..], restricted)) == done + piece + Escaped(s[q + 1..], restricted);
  }

  lemma RunGrows(s: string, out: string, p: nat, q: nat)
    requires p <= q < |s|
    ensures out + s[p..q + 1] == out + s[p..q] + [s[q]] && out + s[q + 1..q + 1] == out
  {
    assert s[p..q + 1] == s[p..q] + [s[q]];
  }

  /** PrintString: writes runs of plain characters and entities. */
  method PrintString(s: string, restricted: bool) returns (out: string)
    ensures out == Escaped(s, restricted)
  {
    hide Special, EntityPattern, Escaped;
    out := [];
    var p, q := 0, 0;
    ghost var done: string := [];
    assert s[0..] == s && [] + Escaped(s, restricted) == Escaped(s, restricted);
    while q < |s|
      invariant 0 <= p <= q <= |s| && done == out + s[p..q]
      invariant done + Escaped(s[q..], restricted) == Escaped(s, restricted)
    {
      EscapedFrom(done, s, restricted, q);
      RunGrows(s, out, p, q);
      if Special(s[q], restricted) {
        done := done + Reference(s[q]);
        out := out + s[p..q];
        out := out + ("&" + EntityPattern(s[q]) + ";");
        p := q + 1;
        assert out + s[p..q + 1] == out;
      } else {
        done := done + [s[q]];
      }
      q := q + 1;
    }
    EscapedNone(s, restricted, done);
    out := out + s[p..q];
  }

  lemma EscapedNone(s: string, restricted: bool, done: string)
    ensures s[|s|..] == [] && Escaped([], restricted) == [] && done + [] == done
  {
  }

  // ---------- Decoding ----------

  /** Behind the line end at i, which may be a pair. */
  function LineEnd(raw: string, i: nat, second: char): (j: nat)
    requires i < |raw|
    ensures i < j <= |raw|
  {
    if i + 1 < |raw| && raw[i + 1] == second then i + 2 else i + 1
  }

  /**
   * One step of decoding raw at i, when n characters have been written over its front: where to go on, and what is
   * written. Line ends become line feeds and entities characters; for an unknown entity nothing is written, so what
   * stood in raw remains.
   */
  ghost function Step(raw: string, entities: bool, refs: CharRefs, i: nat, n: nat): (r: (nat, string))
    requires i < |raw| && n <= i && Sound(refs)
    ensures i < r.0 <= |raw| && n + |r.1| <= r.0
  {
    if raw[i] == CR then (LineEnd(raw, i, LF), [LF])
    else if raw[i] == LF then (LineEnd(raw, i, CR), [LF])
    else if entities && raw[i] == '&' then
      if i + 1 < |raw| && raw[i + 1] == '#' then
        match refs.at(raw[i..])
        case None => (i + 1, ['&'])
        case Some((bytes, k)) => (i + k, bytes)
      else
        match EntityAt(raw[i..])
        case Some((c, k)) => (i + k, [c])
        case None => (i + 1, [raw[n]])
    else (i + 1, [raw[i]])
  }

  ghost function DecodedFrom(raw: string, entities: bool, refs: CharRefs, i: nat, out: string): (r: string)
    requires i <= |raw| && |out| <= i && Sound(refs)
    ensures |r| <= |raw|
    decreases |raw| - i
  {
    if i == |raw| then out
    else
      var (j, piece) := Step(raw, entities, refs, i, |out|);
      DecodedFrom(raw, entities, refs, j, out + piece)
  }

  ghost function Decoded(raw: string, entities: bool, refs: CharRefs): (r: string)
    requires Sound(refs)
    ensures |r| <= |raw|
  {
    DecodedFrom(raw, entities, refs, 0, [])
  }

  /**
   * One turn of the loop of GetStr: what goes to the write pointer, or nothing if that is only moved on, and the
   * new read pointer.
   */
  method DecodeAt(buf: array<char>, p: nat, end: nat, entities: bool, refs: CharRefs, ghost raw: string, ghost i: nat,
                  ghost n: nat)
    returns (piece: Option<string>, p': nat)
    requires p < end < buf.Length && Sound(refs) && n <= i < |raw| && buf[p..end] == raw[i..]
    ensures p < p' <= end
    ensures Step(raw, entities, refs, i, n) == (i + p' - p, if piece == None then [raw[n]] else piece.value)
  {
    assert buf[p] == raw[i..][0] == raw[i];
    assert p + 1 < end ==> buf[p + 1] == raw[i..][1] == raw[i + 1];
    piece, p' := None, p + 1;
    if buf[p] == CR {
      piece, p' := Some([LF]), p + if p + 1 < end && buf[p + 1] == LF then 2 else 1;
    } else if buf[p] == LF {
      piece, p' := Some([LF]), p + if p + 1 < end && buf[p + 1] == CR then 2 else 1;
    } else if entities && buf[p] == '&' {
      if p + 1 < end && buf[p + 1] == '#' {
        var r := refs.at(buf[p..end]);
        piece := Some(['&']);
        if r.Some? {
          piece, p' := Some(r.value.0), p + r.value.1;
        }
      } else {
        var e := EntityAt(buf[p..end]);
        if e.Some? {
          piece, p' := Some([e.value.0]), p + e.value.1;
        }
      }
    } else {
      piece := Some([buf[p]]);
    }
  }

  /** Writes s into the buffer from q on. */
  method CopyInto(buf: array<char>, q: nat, s: string)
    requires q + |s| <= buf.Length
    modifies buf
    ensures buf[..] == old(buf[..q]) + s + old(buf[q + |s|..])
  {
    var k := 0;
    while k < |s|
      invariant 0 <= k <= |s| && buf[..q] == old(buf[..q]) && buf[q..q + k] == s[..k]
      invariant buf[q + k..] == old(buf[q + k..])
    {
      buf[q + k] := s[k];
      k := k + 1;
    }
  }

  /**
   * The buffer while raw is decoded in place: `out` stands over the front of raw, between what precedes and what
   * follows.
   */
  ghost predicate Layout(buf: string, front: string, out: string, raw: string, back: string)
  {
    |out| <= |raw| && buf == front + (out + (raw[|out|..] + ([NUL] + back)))
  }

  lemma LayoutAt(buf: string, front: string, out: string, raw: string, back: string, i: nat)
    requires Layout(buf, front, out, raw, back) && |out| <= i <= |raw|
    ensures |buf| == |front| + |raw| + 1 + |back|
    ensures buf[|front| + i..|front| + |raw|] == raw[i..]
    ensures |out| < |raw| ==> buf[|front| + |out|] == raw[|out|]
  {
    var t := raw[|out|..];
    var rest := t + ([NUL] + back);
    assert buf[|front| + |out|..] == rest;
    assert raw[i..] == t[i - |out|..];
    assert buf[|front| + i..|front| + |raw|] == rest[i - |out|..|t|];
  }

  lemma LayoutWrite(buf: string, front: string, out: string, raw: string, back: string, s: string, after: string)
    requires Layout(buf, front, out, raw, back) && |out| + |s| <= |raw| && |front| + |out| + |s| <= |buf|
    requires after == buf[..|front| + |out|] + s + buf[|front| + |out| + |s|..]
    ensures Layout(after, front, out + s, raw, back)
  {
    var t := raw[|out|..];
    assert buf[..|front| + |out|] == front + out;
    assert buf[|front| + |out|..] == t + ([NUL] + back);
    assert buf[|front| + |out| + |s|..] == (t + ([NUL] + back))[|s|..];
    assert t[|s|..] == raw[|out + s|..];
  }

  lemma LayoutEnd(buf: string, front: string, out: string, raw: string, back: string)
    requires Layout(buf, front, out, raw, back)
    ensures |buf| == |front| + |raw| + 1 + |back| && buf[..|front|] == front && buf[|front|..|front| + |out|] == out
    ensures buf[|front| + |raw| + 1..] == back
    ensures |out| == |raw| ==> buf[|front| + |out|] == NUL
  {
  }

  /** One turn of the loop of GetStr on the buffer. */
  method DecodeTurn(buf: array<char>, p: nat, q: nat, end: nat, entities: bool, refs: CharRefs,
                    ghost front: string, ghost out: string, ghost raw: string, ghost back: string)
    returns (p': nat, q': nat, ghost out': string)
    requires Sound(refs) && q <= p < end < buf.Length && Layout(buf[..], front, out, raw, back)
    requires q == |front| + |out| && end == |front| + |raw|
    modifies buf
    ensures Layout(buf[..], front, out', raw, back) && q' == |front| + |out'| && q' <= p' <= end && p < p'
    ensures out <= out' && Step(raw, entities, refs, p - |front|, |out|) == (p' - |front|, out'[|out|..])
  {
    hide Step, Layout;
    ghost var i, was := p - |front|, buf[..];
    LayoutAt(was, front, out, raw, back, i);
    assert buf[p..end] == was[|front| + i..|front| + |raw|];
    var piece;
    piece, p' := DecodeAt(buf, p, end, entities, refs, raw, i, |out|);
    StepFits(raw, entities, refs, i, |out|);
    q', out' := WriteOut(buf, q, piece, front, out, raw, back);
  }

  /** Writes a piece at the write pointer, or moves it over the character that stands there. */
  method WriteOut(buf: array<char>, q: nat, piece: Option<string>, ghost front: string, ghost out: string,
                  ghost raw: string, ghost back: string)
    returns (q': nat, ghost out': string)
    requires Layout(buf[..], front, out, raw, back) && q == |front| + |out| && |out| < |raw| && q < buf.Length
    requires piece.Some? ==> |out| + |piece.value| <= |raw| && q + |piece.value| <= buf.Length
    modifies buf
    ensures Layout(buf[..], front, out', raw, back) && q' == |front| + |out'|
    ensures out <= out' && out'[|out|..] == if piece == None then [raw[|out|]] else piece.value
  {
    hide Layout;
    ghost var was := buf[..];
    ghost var written := if piece == None then [raw[|out|]] else piece.value;
    LayoutAt(was, front, out, raw, back, |out|);
    if piece == None {
      assert was == was[..q] + [was[q]] + was[q + 1..];
      q' := q + 1;
    } else {
      CopyInto(buf, q, piece.value);
      q' := q + |piece.value|;
    }
    LayoutWrite(was, front, out, raw, back, written, buf[..]);
    out' := out + written;
    assert out'[|out|..] == written;
  }

  /**
   * The loop of GetStr: decodes in place, with a read pointer p and a write pointer q, and ends the result with a
   * NUL.
   */
  method DecodeInPlace(buf: array<char>, start: nat, end: nat, entities: bool, refs: CharRefs) returns (q: nat)
    requires start <= end < buf.Length && Sound(refs)
    modifies buf
    ensures start <= q <= end && buf[start..q] == Decoded(old(buf[start..end]), entities, refs) && buf[q] == NUL
    ensures buf[..start] == old(buf[..start]) && buf[end + 1..] == old(buf[end + 1..])
  {
    hide Step, Layout;
    ghost var raw, front, back := buf[start..end], buf[..start], buf[end + 1..];
    buf[end] := NUL;
    var p := start;
    q := start;
    ghost var out: string := [];
    assert Layout(buf[..], front, out, raw, back) by { LayoutStart(buf[..], front, raw, back); }
    while p < end
      invariant start <= q <= p <= end && q == start + |out|
      invariant Layout(buf[..], front, out, raw, back)
      invariant DecodedFrom(raw, entities, refs, p - start, out) == Decoded(raw, entities, refs)
    {
      ghost var was := out;
      p, q, out := DecodeTurn(buf, p, q, end, entities, refs, front, out, raw, back);
      assert out == was + out[|was|..];
    }
    ghost var done := buf[..];
    LayoutEnd(done, front, out, raw, back);
    buf[q] := NUL;
    assert buf[start..q] == done[|front|..|front| + |out|];
    assert buf[..start] == done[..|front|];
    assert buf[end + 1..] == done[|front| + |raw| + 1..];
  }

  lemma LayoutStart(buf: string, front: string, raw: string, back: string)
    requires |buf| == |front| + |raw| + 1 + |back| && buf[..|front|] == front && buf[|front|..|front| + |raw|] == raw
    requires buf[|front| + |raw|] == NUL && buf[|front| + |raw| + 1..] == back
    ensures Layout(buf, front, [], raw, back)
  {
  }

  lemma StepFits(raw: string, entities: bool, refs: CharRefs, i: nat, n: nat)
    requires i < |raw| && n <= i && Sound(refs)
    ensures n + |Step(raw, entities, refs, i, n).1| <= |raw|
  {
  }

  // ---------- Decoding undoes escaping ----------

  lemma EntityBack(c: char, rest: string)
    requires Special(c, false)
    ensures EntityAt(Reference(c) + rest) == Some((c, |Reference(c)|)) && |Reference(c)| >= 4
    ensures Reference(c)[0] == '&' && Reference(c)[1] != '#'
  {
    var p, t := EntityPattern(c), Reference(c) + rest;
    assert t == ['&'] + (p + ([';'] + rest));
    assert t[1..] == p + ([';'] + rest);
    assert t[1..|p| + 1] == p && t[|p| + 1] == ';';
    assert t[1] == p[0] && t[2] == p[1];
    NoOther(t, c, '"');
    NoOther(t, c, '&');
    NoOther(t, c, '\'');
    NoOther(t, c, '<');
    NoOther(t, c, '>');
  }

  /** No two entities start alike. */
  lemma NoOther(t: string, c: char, d: char)
    requires |t| > 2 && EntityPattern(c) != "" && t[1] == EntityPattern(c)[0] && t[2] == EntityPattern(c)[1]
    ensures StartsEntity(t, d) ==> d == c
  {
    var p := EntityPattern(d);
    assert StartsEntity(t, d) ==> |p| > 1 && t[1..|p| + 1][0] == p[0] && t[1..|p| + 1][1] == p[1];
  }

  lemma EscapedFirst(s: string, restricted: bool)
    requires CR !in s
    ensures Escaped(s, restricted) != [] ==> Escaped(s, restricted)[0] != CR
  {
  }

  lemma DecodeSpecial(raw: string, i: nat, c: char, rest: string, refs: CharRefs, n: nat)
    requires Special(c, false) && n <= i < |raw| && raw[i..] == Reference(c) + rest && Sound(refs)
    ensures Step(raw, true, refs, i, n) == (i + |Reference(c)|, [c])
  {
    EntityBack(c, rest);
    assert raw[i..][0] == raw[i] && raw[i..][1] == raw[i + 1];
  }

  lemma DecodePlain(raw: string, i: nat, rest: string, refs: CharRefs, n: nat)
    requires n <= i < |raw| && raw[i] != '&' && raw[i] != CR && raw[i..] == [raw[i]] + rest
    requires (rest != [] ==> rest[0] != CR) && Sound(refs)
    ensures Step(raw, true, refs, i, n) == (i + 1, [raw[i]])
  {
    assert i + 1 < |raw| ==> raw[i..][1] == raw[i + 1];
  }

  /** One character that was escaped is decoded. */
  lemma DecodeOne(front: string, s: string, restricted: bool, refs: CharRefs, n: nat)
    requires s != [] && CR !in s && n <= |front| && Sound(refs)
    ensures var piece := if Special(s[0], restricted) then Reference(s[0]) else [s[0]];
      var raw := front + Escaped(s, restricted);
      |front| < |raw| && Step(raw, true, refs, |front|, n) == (|front| + |piece|, [s[0]])
  {
    hide Step, Reference;
    var raw, rest := front + Escaped(s, restricted), Escaped(s[1..], restricted);
    assert raw[|front|..] == Escaped(s, restricted);
    if Special(s[0], restricted) {
      DecodeSpecial(raw, |front|, s[0], rest, refs, n);
    } else {
      EscapedFirst(s[1..], restricted);
      DecodePlain(raw, |front|, rest, refs, n);
    }
  }

  lemma {:induction false} DecodeEscapedFrom(front: string, s: string, restricted: bool, refs: CharRefs, out: string)
    requires CR !in s && |out| <= |front| && Sound(refs)
    ensures DecodedFrom(front + Escaped(s, restricted), true, refs, |front|, out) == out + s
    decreases |s|
  {
    hide Step, Special, Reference;
    var raw := front + Escaped(s, restricted);
    if s != [] {
      var piece := if Special(s[0], restricted) then Reference(s[0]) else [s[0]];
      DecodeOne(front, s, restricted, refs, |out|);
      assert raw == (front + piece) + Escaped(s[1..], restricted);
      DecodeEscapedFrom(front + piece, s[1..], restricted, refs, out + [s[0]]);
      assert out + [s[0]] + s[1..] == out + s;
    }
  }

  /** What the printer writes for a text without carriage returns is decoded to that text. */
  lemma DecodeEscaped(s: string, restricted: bool, refs: CharRefs)
    requires CR !in s && Sound(refs)
    ensures Decoded(Escaped(s, restricted), true, refs) == s
  {
    assert [] + Escaped(s, restricted) == Escaped(s, restricted);
    DecodeEscapedFrom([], s, restricted, refs, []);
  }

  // ---------- Unknown entities ----------

  /** An ampersand stands at i that begins neither a character reference nor an entity of the table. */
  predicate UnknownAt(raw: string, i: nat)
  {
    i < |raw| && raw[i] == '&' && !(i + 1 < |raw| && raw[i + 1] == '#') && EntityAt(raw[i..]) == None
  }

  /** What decoding should give: an ampersand for an unknown entity, and otherwise what it gives. */
  ghost function RightFrom(raw: string, refs: CharRefs, i: nat, out: string): string
    requires i <= |raw| && |out| <= i && Sound(refs)
    decreases |raw| - i
  {
    if i == |raw| then out
    else
      var (j, piece) := Step(raw, true, refs, i, |out|);
      RightFrom(raw, refs, j, out + if UnknownAt(raw, i) then ['&'] else piece)
  }

  /** At each unknown entity that is met, the character under the write pointer happens to be an ampersand. */
  ghost predicate KeptFrom(raw: string, refs: CharRefs, i: nat, n: nat)
    requires n <= i <= |raw| && Sound(refs)
    decreases |raw| - i
  {
    i < |raw| ==>
      var (j, piece) := Step(raw, true, refs, i, n);
      (UnknownAt(raw, i) ==> raw[n] == '&') && KeptFrom(raw, refs, j, n + |piece|)
  }

  lemma UnknownStep(raw: string, refs: CharRefs, i: nat, n: nat)
    requires n <= i < |raw| && Sound(refs)
    ensures UnknownAt(raw, i) ==> Step(raw, true, refs, i, n) == (i + 1, [raw[n]])
  {
  }

  /** Unknown entities come through unchanged exactly if an ampersand stands under the write pointer at each of them. */
  lemma {:induction false} UnknownKept(raw: string, refs: CharRefs, i: nat, out: string, right: string)
    requires i <= |raw| && |out| <= i && |right| == |out| && Sound(refs)
    ensures out <= DecodedFrom(raw, true, refs, i, out) && right <= RightFrom(raw, refs, i, right)
    ensures DecodedFrom(raw, true, refs, i, out) == RightFrom(raw, refs, i, right)
        <==> out == right && KeptFrom(raw, refs, i, |out|)
    decreases |raw| - i
  {
    hide Step, UnknownAt;
    if i < |raw| {
      var (j, piece) := Step(raw, true, refs, i, |out|);
      var right' := if UnknownAt(raw, i) then ['&'] else piece;
      UnknownStep(raw, refs, i, |out|);
      UnknownKept(raw, refs, j, out + piece, right + right');
      assert (out + piece)[..|out|] == out && (right + right')[..|out|] == right;
      assert (out + piece)[|out|..] == piece && (right + right')[|out|..] == right';
    }
  }

  /** Behind an entity the write pointer lags, and an unknown entity loses its ampersand to what stands there. */
  lemma AmpersandLost(refs: CharRefs)
    requires Sound(refs)
    ensures Decoded("&lt;&x", true, refs) == "<lx" && RightFrom("&lt;&x", refs, 0, []) == "<&x"
  {
    var raw := "&lt;&x";
    assert Step(raw, true, refs, 0, 0) == (4, "<") by {
      DecodeSpecial(raw, 0, '<', "&x", refs, 0);
      assert raw[0..] == Reference('<') + "&x";
    }
    assert raw[4..] == "&x";
    assert UnknownAt(raw, 4);
    UnknownStep(raw, refs, 4, 1);
    assert Step(raw, true, refs, 5, 2) == (6, "x");
  }

  /** Text without carriage returns, character references and known entities is left as it is. */
  lemma {:induction false} PlainDecode(raw: string, refs: CharRefs, i: nat)
    requires i <= |raw| && Sound(refs) && CR !in raw
    requires forall k :: 0 <= k < |raw| && raw[k] == '&' ==> UnknownAt(raw, k)
    ensures DecodedFrom(raw, true, refs, i, raw[..i]) == raw
    decreases |raw| - i
  {
    if i < |raw| {
      UnknownStep(raw, refs, i, i);
      assert raw[..i] + [raw[i]] == raw[..i + 1];
      PlainDecode(raw, refs, i + 1);
    }
  }

  // ---------- Line ends ----------

  /** Text without entities, with its line ends made into line feeds. */
  function Normal(t: string): string
    decreases |t|
  {
    if t == [] then []
    else if t[0] == CR then [LF] + Normal(t[LineEnd(t, 0, LF)..])
    else if t[0] == LF then [LF] + Normal(t[LineEnd(t, 0, CR)..])
    else [t[0]] + Normal(t[1..])
  }

  /** How many characters are taken at once, and what becomes of them. */
  function Unit(t: string): (r: (nat, char))
    requires t != []
    ensures 0 < r.0 <= |t|
  {
    if t[0] == CR then (LineEnd(t, 0, LF), LF) else if t[0] == LF then (LineEnd(t, 0, CR), LF) else (1, t[0])
  }

  lemma NormalUnit(t: string)
    requires t != []
    ensures Normal(t) == [Unit(t).1] + Normal(t[Unit(t).0..])
  {
  }

  lemma StepUnit(raw: string, entities: bool, refs: CharRefs, i: nat, n: nat)
    requires n <= i < |raw| && Sound(refs) && (entities ==> raw[i] != '&')
    ensures var (k, c) := Unit(raw[i..]); Step(raw, entities, refs, i, n) == (i + k, [c]) && i + k <= |raw|
  {
    var t := raw[i..];
    assert t[0] == raw[i] && (|t| > 1 ==> t[1] == raw[i + 1]);
  }

  lemma {:induction false} DecodedNormal(raw: string, entities: bool, refs: CharRefs, i: nat, out: string)
    requires |out| <= i <= |raw| && Sound(refs) && (entities ==> '&' !in raw)
    ensures DecodedFrom(raw, entities, refs, i, out) == out + Normal(raw[i..])
    decreases |raw| - i
  {
    hide Step, Normal, Unit;
    if i == |raw| {
      assert Normal(raw[i..]) == [] by { NormalNone(raw[i..]); }
    } else {
      assert raw[i] in raw;
      var t := raw[i..];
      var (k, c) := Unit(t);
      StepUnit(raw, entities, refs, i, |out|);
      NormalUnit(t);
      assert raw[i + k..] == t[k..];
      DecodedNormal(raw, entities, refs, i + k, out + [c]);
      assert out + [c] + Normal(t[k..]) == out + ([c] + Normal(t[k..]));
    }
  }

  lemma NormalNone(t: string)
    requires t == []
    ensures Normal(t) == []
  {
  }

  lemma {:induction false} NormalConcat(a: string, t: string)
    requires a != [] ==> a[|a| - 1] != CR && a[|a| - 1] != LF
    ensures Normal(a + t) == Normal(a) + Normal(t)
    decreases |a|
  {
    hide Normal;
    if a == [] {
      NormalNone(a);
      assert a + t == t;
    } else {
      var (n, c) := Unit(a);
      assert Unit(a + t) == (n, c);
      assert (a + t)[n..] == a[n..] + t;
      NormalUnit(a);
      NormalUnit(a + t);
      NormalConcat(a[n..], t);
    }
  }

  lemma NormalBreak(b: string)
    ensures Normal("\r\n" + b) == Normal("\n\r" + b) == [LF] + Normal(b)
    ensures b == [] || b[0] != CR ==> Normal("\n" + b) == [LF] + Normal(b)
    ensures b == [] || b[0] != LF ==> Normal("\r" + b) == [LF] + Normal(b)
  {
    assert ("\r\n" + b)[2..] == b && ("\n\r" + b)[2..] == b && ("\n" + b)[1..] == b && ("\r" + b)[1..] == b;
  }

  /**
   * In text without entities a line feed, a carriage return, and a pair of one with the other, in either order, are
   * decoded to one line feed.
   */
  lemma LineEndsDecode(a: string, end: string, b: string, entities: bool, refs: CharRefs)
    requires Sound(refs) && (entities ==> '&' !in a && '&' !in b)
    requires a != [] ==> a[|a| - 1] != '\r' && a[|a| - 1] != '\n'
    requires || end == "\r\n" || end == "\n\r" || (end == "\n" && (b == [] || b[0] != '\r'))
             || (end == "\r" && (b == [] || b[0] != '\n'))
    ensures Decoded(a + end + b, entities, refs) == Decoded(a, entities, refs) + "\n" + Decoded(b, entities, refs)
  {
    hide Normal, Decoded;
    var raw := a + end + b;
    assert raw == a + (end + b);
    DecodedAll(raw, entities, refs);
    DecodedAll(a, entities, refs);
    DecodedAll(b, entities, refs);
    NormalConcat(a, end + b);
    NormalBreak(b);
    assert Normal(a) + ([LF] + Normal(b)) == Normal(a) + "\n" + Normal(b);
  }

  lemma DecodedAll(raw: string, entities: bool, refs: CharRefs)
    requires Sound(refs) && (entities ==> '&' !in raw)
    ensures Decoded(raw, entities, refs) == Normal(raw)
  {
    DecodedNormal(raw, entities, refs, 0, []);
    assert raw[0..] == raw && [] + Normal(raw) == Normal(raw);
  }
}
