/** What may stand between tokens: the white space of section 2 of RFC 4627 and, with the flag, comments; and that the
    reader skips exactly this. */
module JsonGaps {
  import opened Bytes
  import opened Texts
  import opened JsonText

  /** A white space character, a comment up to its end sign, a comment up to the end of its line, or of the text. */
  datatype Lay = Blank(c: byte) | Block(body: seq<byte>) | Line(body: seq<byte>) | LastLine(body: seq<byte>)

  /** A comment's end sign stands in s at i. */
  predicate EndsAt(s: seq<byte>, i: nat) {
    i + 1 < |s| && s[i] == 0x2A && s[i + 1] == 0x2F
  }

  predicate LayOk(comments: bool, x: Lay) {
    match x
    case Blank(c) => c == 0x20 || c == 0x09 || c == 0x0A || c == 0x0D
    case Block(body) =>
      comments && 0 !in body && forall i :: 0 <= i < |body| ==> !EndsAt(body + [0x2A, 0x2F], i)
    case Line(body) => comments && 0 !in body && 0x0A !in body
    case LastLine(body) => comments && 0 !in body && 0x0A !in body
  }

  function LayText(x: Lay): seq<byte> {
    match x
    case Blank(c) => [c]
    case Block(body) => [0x2F, 0x2A] + (body + [0x2A, 0x2F])
    case Line(body) => [0x2F, 0x2F] + (body + [0x0A])
    case LastLine(body) => [0x2F, 0x2F] + body
  }

  type Gap = seq<Lay>

  function GapText(g: Gap): seq<byte> {
    if g == [] then [] else LayText(g[0]) + GapText(g[1..])
  }

  /** Only at the end of the text may a comment be left open. */
  predicate GapOk(comments: bool, g: Gap, atEnd: bool) {
    forall i :: 0 <= i < |g| ==> LayOk(comments, g[i]) && (g[i].LastLine? ==> i == |g| - 1 && atEnd)
  }

  /** Nothing more of a gap begins with this character. */
  predicate Solid(comments: bool, c: byte) {
    c != 0x20 && c != 0x09 && c != 0x0A && c != 0x0D && (comments ==> c != 0x2F)
  }

  // ---------- gaps are skipped ----------

  lemma {:induction false} BlockRead(s: seq<byte>, p: nat, body: seq<byte>)
    requires 0 !in body && At(s, p, body + [0x2A, 0x2F])
    requires forall i :: 0 <= i < |body| ==> !EndsAt(body + [0x2A, 0x2F], i)
    ensures p <= |s| && BlockEnd(s, p) == Lexed((), p + |body| + 2)
    decreases |body|
  {
    var all := body + [0x2A, 0x2F];
    AtInside(s, p, all);
    AtPeek(s, p, all, 0);
    AtPeek(s, p, all, 1);
    if body != [] {
      assert all == [body[0]] + (body[1..] + [0x2A, 0x2F]);
      AtSplit(s, p, [body[0]], body[1..] + [0x2A, 0x2F]);
      assert !EndsAt(all, 0);
      forall i | 0 <= i < |body[1..]| ensures !EndsAt(body[1..] + [0x2A, 0x2F], i) { assert !EndsAt(all, i + 1); }
      BlockRead(s, p + 1, body[1..]);
    }
  }

  lemma {:induction false} LineRead(s: seq<byte>, p: nat, body: seq<byte>)
    requires 0 !in body && 0x0A !in body && At(s, p, body)
    requires Peek(s, p + |body|) == 0x0A || Peek(s, p + |body|) == 0
    ensures p <= |s| && LineEnd(s, p) == p + |body| + if Peek(s, p + |body|) == 0x0A then 1 else 0
    decreases |body|
  {
    AtInside(s, p, body);
    if body != [] {
      AtPeek(s, p, body, 0);
      assert body == [body[0]] + body[1..];
      AtSplit(s, p, [body[0]], body[1..]);
      LineRead(s, p + 1, body[1..]);
    }
  }

  lemma CommentIs(s: seq<byte>, p: nat)
    requires p <= |s|
    ensures Peek(s, p) == 0x2A ==> Comment(s, p) == BlockEnd(s, p + 1)
    ensures Peek(s, p) == 0x2F ==> Comment(s, p) == Lexed((), LineEnd(s, p + 1))
    ensures Comment(s, p).Lexed? ==> Peek(s, p) == 0x2A || Peek(s, p) == 0x2F
  {
    hide BlockEnd, LineEnd;
  }

  lemma OpensAt(s: seq<byte>, p: nat, c: byte, rest: seq<byte>)
    requires At(s, p, [0x2F, c] + rest)
    ensures p + 2 <= |s| && Peek(s, p) == 0x2F && Peek(s, p + 1) == c && At(s, p + 2, rest)
  {
    AtSplit(s, p, [0x2F, c], rest);
    AtPeek(s, p, [0x2F, c], 0);
    AtPeek(s, p, [0x2F, c], 1);
  }

  lemma BlockCommentRead(s: seq<byte>, p: nat, body: seq<byte>)
    requires LayOk(true, Block(body)) && At(s, p, LayText(Block(body)))
    ensures p + 1 <= |s| && Peek(s, p) == 0x2F && Comment(s, p + 1) == Lexed((), p + |LayText(Block(body))|)
  {
    OpensAt(s, p, 0x2A, body + [0x2A, 0x2F]);
    CommentIs(s, p + 1);
    hide At, Peek, Comment, BlockEnd;
    BlockRead(s, p + 2, body);
  }

  lemma LineCommentRead(s: seq<byte>, p: nat, body: seq<byte>, end: seq<byte>)
    requires 0 !in body && 0x0A !in body && At(s, p, [0x2F, 0x2F] + (body + end))
    requires if end == [] then Peek(s, p + 2 + |body|) == 0 else end == [0x0A]
    ensures p + 1 <= |s| && Peek(s, p) == 0x2F && Comment(s, p + 1) == Lexed((), p + 2 + |body| + |end|)
  {
    OpensAt(s, p, 0x2F, body + end);
    AtSplit(s, p + 2, body, end);
    if end != [] { AtPeek(s, p + 2 + |body|, end, 0); }
    CommentIs(s, p + 1);
    hide At, Peek, Comment, LineEnd;
    LineRead(s, p + 2, body);
  }

  /** A comment is read to its end. */
  lemma CommentRead(s: seq<byte>, p: nat, x: Lay)
    requires LayOk(true, x) && !x.Blank? && At(s, p, LayText(x)) && (x.LastLine? ==> Peek(s, p + |LayText(x)|) == 0)
    ensures p + 1 <= |s| && Peek(s, p) == 0x2F && Comment(s, p + 1) == Lexed((), p + |LayText(x)|)
  {
    hide At, Peek, Comment;
    match x {
      case Block(body) => BlockCommentRead(s, p, body);
      case Line(body) => LineCommentRead(s, p, body, [0x0A]);
      case LastLine(body) =>
        assert body + [] == body;
        LineCommentRead(s, p, body, []);
    }
  }

  lemma SkipBlank(env: Env, s: seq<byte>, p: nat)
    requires p < |s| && IsSpace(s[p])
    ensures Skip(env, s, p) == Skip(env, s, p + 1)
  {
    assert SkipSpace(s, p) == SkipSpace(s, p + 1);
    hide SkipSpace, Comment;
  }

  lemma SpaceIs(c: byte)
    ensures IsSpace(c) <==> c == 0x20 || c == 0x09 || c == 0x0A || c == 0x0D
  {
  }

  lemma SkipStops(env: Env, s: seq<byte>, p: nat)
    requires p <= |s| && Solid(env.comments, Peek(s, p))
    ensures Skip(env, s, p) == Lexed((), p)
  {
  }

  lemma SkipGoesOn(env: Env, s: seq<byte>, p: nat)
    requires p < |s| && env.comments && Peek(s, p) == 0x2F
    ensures Skip(env, s, p) == if Comment(s, p + 1).Bad? then Comment(s, p + 1) else Skip(env, s, Comment(s, p + 1).end)
  {
    assert SkipSpace(s, p) == p;
    hide Comment;
  }

  lemma LayAt(s: seq<byte>, p: nat, g: Gap)
    requires g != [] && At(s, p, GapText(g))
    ensures At(s, p, LayText(g[0])) && At(s, p + |LayText(g[0])|, GapText(g[1..]))
    ensures |GapText(g)| == |LayText(g[0])| + |GapText(g[1..])| && |LayText(g[0])| > 0
  {
    AtSplit(s, p, LayText(g[0]), GapText(g[1..]));
    hide At;
  }

  lemma RestOk(comments: bool, g: Gap, atEnd: bool)
    requires g != [] && GapOk(comments, g, atEnd)
    ensures LayOk(comments, g[0]) && GapOk(comments, g[1..], atEnd) && (g[0].LastLine? ==> |g| == 1 && atEnd)
  {
    hide LayOk;
  }

  /** A gap is skipped to its end. */
  lemma {:induction false} GapRead(env: Env, s: seq<byte>, p: nat, g: Gap)
    requires At(s, p, GapText(g)) && GapOk(env.comments, g, Peek(s, p + |GapText(g)|) == 0)
    requires Solid(env.comments, Peek(s, p + |GapText(g)|))
    ensures p <= |s| && Skip(env, s, p) == Lexed((), p + |GapText(g)|)
    decreases |g|
  {
    hide Skip, Comment, LayOk, LayText, Solid, GapOk, Peek, At;
    AtInside(s, p, GapText(g));
    if g == [] {
      SkipStops(env, s, p);
    } else {
      LayAt(s, p, g);
      RestOk(env.comments, g, Peek(s, p + |GapText(g)|) == 0);
      LayRead(env, s, p, g[0], p + |GapText(g)|, g[1..]);
      GapRead(env, s, p + |LayText(g[0])|, g[1..]);
    }
  }

  lemma LayRead(env: Env, s: seq<byte>, p: nat, x: Lay, end: nat, rest: Gap)
    requires LayOk(env.comments, x) && At(s, p, LayText(x)) && end == p + |LayText(x)| + |GapText(rest)|
    requires x.LastLine? ==> rest == [] && Peek(s, end) == 0
    ensures p + |LayText(x)| <= |s| && Skip(env, s, p) == Skip(env, s, p + |LayText(x)|)
  {
    hide Skip, Comment, GapText;
    AtInside(s, p, LayText(x));
    AtPeek(s, p, LayText(x), 0);
    if x.Blank? {
      SpaceIs(x.c);
      SkipBlank(env, s, p);
    } else {
      if x.LastLine? { NoGap(rest); }
      CommentRead(s, p, x);
      SkipGoesOn(env, s, p);
    }
  }

  lemma NoGap(g: Gap)
    ensures g == [] ==> GapText(g) == []
  {
  }

  // ---------- what is skipped is a gap ----------

  lemma {:induction false} BlockSeen(s: seq<byte>, p: nat) returns (body: seq<byte>)
    requires p <= |s| && BlockEnd(s, p).Lexed?
    ensures 0 !in body && At(s, p, body + [0x2A, 0x2F]) && BlockEnd(s, p).end == p + |body| + 2
    ensures forall i :: 0 <= i < |body| ==> !EndsAt(body + [0x2A, 0x2F], i)
    decreases |s| - p
  {
    if Peek(s, p) == STAR && Peek(s, p + 1) == SLASH {
      body := [];
      assert s[p..p + 2] == [0x2A, 0x2F];
    } else {
      var rest := BlockSeen(s, p + 1);
      body := [s[p]] + rest;
      BlockMore(s, p, rest);
    }
  }

  lemma BlockMore(s: seq<byte>, p: nat, rest: seq<byte>)
    requires p < |s| && s[p] != 0 && !(s[p] == 0x2A && Peek(s, p + 1) == 0x2F)
    requires 0 !in rest && At(s, p + 1, rest + [0x2A, 0x2F])
    requires forall i :: 0 <= i < |rest| ==> !EndsAt(rest + [0x2A, 0x2F], i)
    ensures var body := [s[p]] + rest;
      && 0 !in body && At(s, p, body + [0x2A, 0x2F])
      && forall i :: 0 <= i < |body| ==> !EndsAt(body + [0x2A, 0x2F], i)
  {
    var body, tail := [s[p]] + rest, rest + [0x2A, 0x2F];
    AtPeek(s, p + 1, tail, 0);
    assert body + [0x2A, 0x2F] == [s[p]] + tail;
    assert s[p..p + 1 + |tail|] == [s[p]] + s[p + 1..p + 1 + |tail|];
    forall i | 0 <= i < |body| ensures !EndsAt(body + [0x2A, 0x2F], i) {
      if i > 0 { assert !EndsAt(tail, i - 1); }
    }
  }

  lemma {:induction false} LineSeen(s: seq<byte>, p: nat) returns (body: seq<byte>)
    requires p <= |s|
    ensures 0 !in body && 0x0A !in body && At(s, p, body)
    ensures Peek(s, p + |body|) == 0 || Peek(s, p + |body|) == 0x0A
    ensures LineEnd(s, p) == p + |body| + if Peek(s, p + |body|) == 0x0A then 1 else 0
    decreases |s| - p
  {
    if Peek(s, p) == 0 || Peek(s, p) == 10 {
      body := [];
    } else {
      var rest := LineSeen(s, p + 1);
      body := [s[p]] + rest;
      assert s[p..p + |body|] == [s[p]] + s[p + 1..p + 1 + |rest|];
    }
  }

  lemma BlockCommentSeen(s: seq<byte>, p: nat) returns (x: Lay)
    requires p + 2 <= |s| && At(s, p, [0x2F, 0x2A]) && BlockEnd(s, p + 2).Lexed?
    ensures LayOk(true, x) && x.Block? && At(s, p, LayText(x)) && BlockEnd(s, p + 2).end == p + |LayText(x)|
  {
    hide At, BlockEnd;
    var body := BlockSeen(s, p + 2);
    x := Block(body);
    JoinAt(s, p, [0x2F, 0x2A], body + [0x2A, 0x2F]);
  }

  lemma LineCommentSeen(s: seq<byte>, p: nat) returns (x: Lay)
    requires p + 2 <= |s| && At(s, p, [0x2F, 0x2F])
    ensures LayOk(true, x) && At(s, p, LayText(x)) && LineEnd(s, p + 2) == p + |LayText(x)|
    ensures x.LastLine? ==> Peek(s, p + |LayText(x)|) == 0
  {
    var body := LineSeen(s, p + 2);
    var e := p + 2 + |body|;
    PeekInside(s, e);
    if Peek(s, e) == 0x0A {
      x := Line(body);
      assert s[e..e + 1] == [0x0A];
      assert At(s, e, [0x0A]);
      hide At;
      JoinAt(s, p + 2, body, [0x0A]);
      JoinAt(s, p, [0x2F, 0x2F], body + [0x0A]);
    } else {
      x := LastLine(body);
      hide At;
      JoinAt(s, p, [0x2F, 0x2F], body);
    }
    hide LineEnd, Peek;
  }

  lemma CommentSeen(s: seq<byte>, p: nat) returns (x: Lay)
    requires p < |s| && s[p] == 0x2F && Comment(s, p + 1).Lexed?
    ensures LayOk(true, x) && At(s, p, LayText(x)) && Comment(s, p + 1).end == p + |LayText(x)|
    ensures x.LastLine? ==> Peek(s, p + |LayText(x)|) == 0
  {
    CommentIs(s, p + 1);
    TwoAt(s, p);
    hide *;
    if Peek(s, p + 1) == 0x2A { x := BlockCommentSeen(s, p); } else { x := LineCommentSeen(s, p); }
  }

  lemma TwoAt(s: seq<byte>, p: nat)
    requires p < |s| && Peek(s, p + 1) != 0
    ensures p + 2 <= |s| && At(s, p, [s[p], Peek(s, p + 1)])
  {
    assert s[p..p + 2] == [s[p], s[p + 1]];
  }

  lemma GapMore(comments: bool, s: seq<byte>, p: nat, x: Lay, rest: Gap, next: byte)
    requires LayOk(comments, x) && At(s, p, LayText(x)) && (x.LastLine? ==> Peek(s, p + |LayText(x)|) == 0)
    requires GapOk(comments, rest, next == 0) && At(s, p + |LayText(x)|, GapText(rest))
    requires next == Peek(s, p + |LayText(x)| + |GapText(rest)|) && (rest != [] ==> Peek(s, p + |LayText(x)|) != 0)
    ensures var g := [x] + rest;
      GapOk(comments, g, next == 0) && At(s, p, GapText(g)) && |GapText(g)| == |LayText(x)| + |GapText(rest)|
  {
    hide *;
    var g := [x] + rest;
    assert g[0] == x && g[1..] == rest;
    GapParts(g);
    JoinAt(s, p, LayText(x), GapText(rest));
    EmptyGap(rest);
    MoreOk(comments, x, rest, next == 0);
  }

  lemma GapParts(g: Gap)
    requires g != []
    ensures GapText(g) == LayText(g[0]) + GapText(g[1..])
  {
    hide LayText;
  }

  lemma EmptyGap(g: Gap)
    ensures g == [] ==> |GapText(g)| == 0
  {
  }

  lemma MoreOk(comments: bool, x: Lay, rest: Gap, atEnd: bool)
    requires LayOk(comments, x) && GapOk(comments, rest, atEnd) && (x.LastLine? ==> rest == [] && atEnd)
    ensures GapOk(comments, [x] + rest, atEnd)
  {
    var g := [x] + rest;
    hide LayOk;
    forall i | 0 <= i < |g| ensures LayOk(comments, g[i]) && (g[i].LastLine? ==> i == |g| - 1 && atEnd) {
      if i > 0 { assert g[i] == rest[i - 1]; }
    }
  }

  lemma GapStarts(comments: bool, s: seq<byte>, p: nat, g: Gap, next: byte)
    requires g != [] && GapOk(comments, g, next == 0) && At(s, p, GapText(g))
    ensures Peek(s, p) != 0
  {
    LayAt(s, p, g);
    RestOk(comments, g, next == 0);
    AtPeek(s, p, LayText(g[0]), 0);
    hide At, Peek;
  }

  /** Skipping ends before something solid, and what has been skipped is a gap. */
  lemma {:induction false} GapSeen(env: Env, s: seq<byte>, p: nat) returns (g: Gap)
    requires p <= |s| && Skip(env, s, p).Lexed?
    ensures At(s, p, GapText(g)) && Skip(env, s, p).end == p + |GapText(g)|
    ensures var next := Peek(s, p + |GapText(g)|); GapOk(env.comments, g, next == 0) && Solid(env.comments, next)
    decreases |s| - p
  {
    hide *;
    SpaceIs(Peek(s, p));
    var x: Lay;
    if Peek(s, p) == 0x20 || Peek(s, p) == 0x09 || Peek(s, p) == 0x0A || Peek(s, p) == 0x0D {
      x := BlankSeen(env, s, p);
    } else if env.comments && Peek(s, p) == 0x2F {
      PeekInside(s, p);
      SkipGoesOn(env, s, p);
      x := CommentSeen(s, p);
    } else {
      SolidHere(env, s, p);
      SkipStops(env, s, p);
      return [];
    }
    LayLong(x);
    AtInside(s, p, LayText(x));
    var rest := GapSeen(env, s, p + |LayText(x)|);
    var next := Peek(s, p + |LayText(x)| + |GapText(rest)|);
    if rest != [] { GapStarts(env.comments, s, p + |LayText(x)|, rest, next); }
    GapMore(env.comments, s, p, x, rest, next);
    g := [x] + rest;
  }

  lemma PeekInside(s: seq<byte>, p: nat)
    ensures Peek(s, p) != 0 ==> p < |s| && s[p] == Peek(s, p)
  {
  }

  lemma LayLong(x: Lay)
    ensures |LayText(x)| > 0
  {
  }

  lemma SolidHere(env: Env, s: seq<byte>, p: nat)
    requires p <= |s| && !(env.comments && Peek(s, p) == 0x2F)
    requires Peek(s, p) != 0x20 && Peek(s, p) != 0x09 && Peek(s, p) != 0x0A && Peek(s, p) != 0x0D
    ensures Solid(env.comments, Peek(s, p)) && GapText([]) == [] && At(s, p, [])
      && GapOk(env.comments, [], Peek(s, p) == 0)
  {
  }

  lemma BlankSeen(env: Env, s: seq<byte>, p: nat) returns (x: Lay)
    requires p <= |s| && (Peek(s, p) == 0x20 || Peek(s, p) == 0x09 || Peek(s, p) == 0x0A || Peek(s, p) == 0x0D)
    ensures LayOk(env.comments, x) && x.Blank? && At(s, p, LayText(x)) && |LayText(x)| == 1 && p < |s|
    ensures Skip(env, s, p) == Skip(env, s, p + 1)
  {
    x := Blank(s[p]);
    assert s[p..p + 1] == [s[p]];
    SkipBlank(env, s, p);
    hide Skip;
  }
}
