/** JSON pointers: parsed into one buffer of names, and written out again. */
module JsonPointers {
  import opened Bytes
  import opened Options
  import opened Texts
  import opened Utf8
  import opened PointerText

  /** A token: where its name lies in the name buffer, and its index. */
  datatype TokenRef = TokenRef(start: nat, length: nat, index: nat)

  /** The masks that Validate asks of the code units behind c, by c's range. */
  function Masks(c: byte): Option<seq<bv8>> {
    var range := GetRange(c);
    if range == 2 then Some([0x70])
    else if range == 3 then Some([0x70, 0x70])
    else if range == 4 then Some([0x50, 0x70])
    else if range == 5 then Some([0x10, 0x70, 0x70])
    else if range == 6 then Some([0x70, 0x70, 0x70])
    else if range == 10 then Some([0x20, 0x70])
    else if range == 11 then Some([0x60, 0x70, 0x70])
    else None
  }

  /** The code units from p on pass the masks. */
  predicate Pass(s: seq<byte>, p: nat, masks: seq<bv8>)
    decreases |masks|
  {
    masks == [] || (Trans(Peek(s, p), masks[0]) && Pass(s, p + 1, masks[1..]))
  }

  lemma ValidateByMasks(s: seq<byte>, p: nat)
    ensures var c := Peek(s, p); var v := Validate(s, p);
      if c < 0x80 then v == Checked(true, 1)
      else if Masks(c).None? then v == Checked(false, 1)
      else var m := Masks(c).value; |m| <= 3 && v == Checked(Pass(s, p + 1, m), 1 + |m|)
  {
    hide Trans, Peek;
    var c := Peek(s, p);
    if c >= 0x80 && Masks(c).Some? {
      var m := Masks(c).value;
      assert Pass(s, p + 1, m) == (Trans(Peek(s, p + 1), m[0]) && Pass(s, p + 2, m[1..]));
      if |m| >= 2 {
        assert Pass(s, p + 2, m[1..]) == (Trans(Peek(s, p + 2), m[1]) && Pass(s, p + 3, m[1..][1..]));
      }
      if |m| >= 3 {
        assert Pass(s, p + 3, m[1..][1..]) == (Trans(Peek(s, p + 3), m[2]) && Pass(s, p + 4, m[1..][1..][1..]));
      }
    }
  }

  lemma TripletsUnfold(s: seq<byte>, i: nat, k: nat)
    requires k <= |Triplets(s, i)|
    ensures k < |Triplets(s, i)| <==> Triplet(s, i + 3 * k).Some?
    ensures k < |Triplets(s, i)| ==> Triplets(s, i)[k] == Triplet(s, i + 3 * k).value
    decreases k
  {
    if k > 0 { TripletsUnfold(s, i + 3, k - 1); }
    hide Triplet;
  }

  class JsonPointer {
    var nameBuffer: array<byte>
    var tokens: seq<TokenRef>
    var error: Option<(ErrorCode, nat)> // parseErrorCode_ and parseErrorOffset_

    constructor ()
      ensures tokens == [] && error == None && fresh(nameBuffer)
    {
      nameBuffer := new byte[0];
      tokens, error := [], None;
    }

    /** PercentDecodeStream::Take. */
    static method TakeTriplet(s: seq<byte>, pos: nat) returns (c: byte, next: nat, valid: bool)
      requires pos <= |s|
      ensures next <= |s|
      ensures match Triplet(s, pos) case Some(v) => valid && c == v && next == pos + 3 case None => !valid && c == 0
    {
      next, valid := pos, false;
      if Peek(s, pos) != PERCENT || pos + 3 > |s| { return 0, pos, false; }
      next := pos + 1;
      c := 0;
      var j := 0;
      while j < 2
        invariant 0 <= j <= 2 && next == pos + 1 + j
        invariant j >= 1 ==> HexDigit(s[pos + 1]) < 16
        invariant j == 2 ==> HexDigit(s[pos + 2]) < 16
        invariant c == if j == 0 then 0 else if j == 1 then HexDigit(s[pos + 1])
          else 16 * HexDigit(s[pos + 1]) + HexDigit(s[pos + 2])
      {
        var h := HexDigit(s[next]);
        if h == 16 { return 0, next, false; }
        c := (c * 16 + h) % 256;
        next := next + 1;
        j := j + 1;
      }
      valid := true;
    }

    /** Validate from a percent-encoded stream into the name buffer. What it puts there before it finds the sequence
        wrong stays within the buffer too. */
    method PercentDecode(s: seq<byte>, i: nat, name: nat) returns (ok: bool, len: nat, end: nat)
      requires nameBuffer.Length == |s| && name + 2 <= i < |s| && s[i] == PERCENT
      modifies nameBuffer
      ensures ok <==> Sequence(s, i).Parsed?
      ensures !ok ==> Sequence(s, i) == Wrong(InvalidPercentEncoding, i)
      ensures ok ==> len == |Sequence(s, i).value| && end == Sequence(s, i).end && name + len <= |s|
      ensures ok ==> nameBuffer[name..name + len] == Sequence(s, i).value
      ensures nameBuffer[..name] == old(nameBuffer[..name])
    {
      hide *;
      ghost var d := Triplets(s, i);
      var c, pos, valid := TakeTriplet(s, i);
      SequenceIs(s, i);
      ValidateByMasks(d, 0);
      nameBuffer[name] := c;
      len, ok, end := 1, valid, pos;
      if !valid {
        NoTriplet(s, i);
        return;
      }
      FirstTriplet(s, i);
      assert nameBuffer[name..name + 1] == [c] == d[..1];
      if c < 0x80 { return; }
      if Masks(c).None? {
        ok := false;
        return;
      }
      var result;
      result, valid, end := TakeTails(s, i, name, pos, Masks(c).value);
      len := 1 + |Masks(c).value|;
      ok := result && valid;
    }

    /** The code units behind the first, each put into the buffer and held against its mask. */
    method TakeTails(s: seq<byte>, i: nat, name: nat, pos0: nat, masks: seq<bv8>)
        returns (result: bool, valid: bool, end: nat)
      requires nameBuffer.Length == |s| && name + 2 <= i && pos0 == i + 3 <= |s| && |masks| <= 3
      requires Triplets(s, i) != [] && nameBuffer[name] == Triplets(s, i)[0]
      modifies nameBuffer
      ensures nameBuffer[..name] == old(nameBuffer[..name])
      ensures valid <==> 1 + |masks| <= |Triplets(s, i)|
      ensures valid ==>
        && end == i + 3 * (1 + |masks|) && nameBuffer[name..name + 1 + |masks|] == Triplets(s, i)[..1 + |masks|]
        && (result <==> Pass(Triplets(s, i), 1, masks))
    {
      hide *;
      ghost var d := Triplets(s, i);
      var len: nat := 1;
      end, result, valid := pos0, true, true;
      assert masks[0..] == masks;
      assert nameBuffer[name..name + 1] == [nameBuffer[name]] == d[..1];
      while len < 1 + |masks|
        invariant 1 <= len <= 1 + |masks| && end <= |s| && (valid ==> len <= |d| && end == i + 3 * len)
        invariant valid ==> nameBuffer[name..name + len] == d[..len]
        invariant valid ==> ((result && Pass(d, len, masks[len - 1..])) <==> Pass(d, 1, masks))
        invariant !valid ==> |d| < 1 + |masks|
        invariant nameBuffer[..name] == old(nameBuffer[..name])
      {
        var c, good;
        ghost var before := nameBuffer[name..name + len];
        if valid { TripletsUnfold(s, i, len); }
        c, end, good := TakeTriplet(s, end);
        nameBuffer[name + len] := c;
        assert nameBuffer[name..name + len + 1] == before + [c];
        PassStep(d, len, masks[len - 1..]);
        assert masks[len - 1..][1..] == masks[len..] && masks[len - 1..][0] == masks[len - 1];
        if valid && good { assert d[..len + 1] == d[..len] + [d[len]]; }
        result := result && Trans(c, masks[len - 1]);
        valid := valid && good;
        len := len + 1;
      }
      PassNone(d, len);
      assert masks[len - 1..] == [];
    }

    static lemma PassStep(d: seq<byte>, p: nat, masks: seq<bv8>)
      requires masks != []
      ensures Pass(d, p, masks) <==> Trans(Peek(d, p), masks[0]) && Pass(d, p + 1, masks[1..])
      ensures p < |d| ==> Peek(d, p) == d[p]
    {
    }

    static lemma PassNone(d: seq<byte>, p: nat)
      ensures Pass(d, p, [])
    {
    }

    static lemma NoTriplet(s: seq<byte>, i: nat)
      requires Triplet(s, i).None?
      ensures Triplets(s, i) == []
    {
    }

    static lemma FirstTriplet(s: seq<byte>, i: nat)
      requires Triplet(s, i).Some?
      ensures Triplets(s, i) != [] && Triplets(s, i)[0] == Peek(Triplets(s, i), 0) == Triplet(s, i).value
        && i + 3 <= |s|
    {
    }

    static lemma SequenceIs(s: seq<byte>, i: nat)
      requires i <= |s|
      ensures var d, v := Triplets(s, i), Validate(Triplets(s, i), 0);
        Sequence(s, i) == if v.ok && v.taken <= |d| then Parsed(d[..v.taken], i + 3 * v.taken)
          else Wrong(InvalidPercentEncoding, i)
    {
      hide Triplets, Validate;
    }

    /** One turn of the loop over a name: what a character, an escape or a percent-encoded sequence stands for goes to
        the buffer. code says what is wrong, if anything, and end is then the offset to report. */
    method ParsePiece(s: seq<byte>, i: nat, name: nat, uri: bool) returns (code: Option<ErrorCode>, end: nat, next: nat)
      requires nameBuffer.Length == |s| && i < |s| && name + (if uri then 2 else 1) <= i && s[i] != SLASH
      modifies nameBuffer
      ensures nameBuffer[..name] == old(nameBuffer[..name])
      ensures var r := Piece(s, i, uri);
        && (r.Parsed? ==>
              code == None && end == r.end && next == name + |r.value| <= |s| && nameBuffer[name..next] == r.value)
        && (r.Wrong? ==> code == Some(r.code) && end == r.offset)
    {
      hide Sequence, NeedsPercent;
      var c := s[i];
      end, next, code := i, name, None;
      if uri {
        if c == PERCENT {
          var ok, len;
          ok, len, end := PercentDecode(s, i, name);
          if !ok { return Some(InvalidPercentEncoding), i, name; }
          if len != 1 {
            next := name + len;
            return;
          }
          c := nameBuffer[name];
          end := end - 1;
        } else if NeedsPercent(c) {
          return Some(CharacterMustPercentEncode), i, name;
        }
      }
      end := end + 1;
      if c == TILDE {
        if end < |s| {
          c := s[end];
          if c == ZERO {
            c := TILDE;
          } else if c == ONE {
            c := SLASH;
          } else {
            return Some(InvalidEscape), end, name;
          }
          end := end + 1;
        } else {
          return Some(InvalidEscape), end, name;
        }
      }
      nameBuffer[name] := c;
      next := name + 1;
    }

    /** The loop over a name. */
    method ParseName(s: seq<byte>, i0: nat, name0: nat, uri: bool) returns (code: Option<ErrorCode>, i: nat, name: nat)
      requires nameBuffer.Length == |s| && i0 <= |s| && name0 + (if uri then 2 else 1) <= i0
      modifies nameBuffer
      ensures nameBuffer[..name0] == old(nameBuffer[..name0])
      ensures var r := Name(s, i0, uri);
        && (r.Parsed? ==>
              && code == None && i == r.end && name == name0 + |r.value| && name + (if uri then 2 else 1) <= i
              && nameBuffer[name0..name] == r.value)
        && (r.Wrong? ==> code == Some(r.code) && i == r.offset)
    {
      ghost var whole := Name(s, i0, uri);
      hide *;
      i, name, code := i0, name0, None;
      ghost var before, done: seq<byte> := nameBuffer[..name0], [];
      assert before + [] == before;
      GoesFirst(whole);
      while i < |s| && s[i] != SLASH
        invariant i0 <= i <= |s| && name == name0 + |done| && name + (if uri then 2 else 1) <= i && code == None
        invariant nameBuffer[..name] == before + done && Goes(whole, done, Name(s, i, uri))
        decreases |s| - i
      {
        var end, next;
        ghost var d;
        code, end, next, d := TakePiece(s, i, name, uri, before, done, whole);
        i := end;
        if code.Some? { break; }
        name, done := next, done + d;
      }
      Apart(nameBuffer[..], before, done);
      if code == None { GoesLast(s, i, uri, whole, done); }
    }

    /** One more piece behind what has been decoded of the name. */
    method TakePiece(s: seq<byte>, i: nat, name: nat, uri: bool,
                     ghost before: seq<byte>, ghost done: seq<byte>, ghost whole: Parsed<seq<byte>>)
      returns (code: Option<ErrorCode>, end: nat, next: nat, ghost d: seq<byte>)
      requires nameBuffer.Length == |s| && i < |s| && s[i] != SLASH && name + (if uri then 2 else 1) <= i
      requires name == |before| + |done| && nameBuffer[..name] == before + done && Goes(whole, done, Name(s, i, uri))
      modifies nameBuffer
      ensures code.Some? ==> whole == Wrong(code.value, end) && nameBuffer[..name] == before + done
      ensures code == None ==>
        && i < end <= |s| && next == name + |d| && next + (if uri then 2 else 1) <= end
        && nameBuffer[..next] == before + (done + d) && Goes(whole, done + d, Name(s, end, uri))
    {
      hide *;
      d := [];
      code, end, next := ParsePiece(s, i, name, uri);
      NameGoes(s, i, uri, whole, done);
      if code.Some? { return; }
      d := nameBuffer[name..next];
      Longer(nameBuffer[..], before, done, d);
    }

    static lemma Apart(b: seq<byte>, before: seq<byte>, done: seq<byte>)
      requires |before| + |done| <= |b| && b[..|before| + |done|] == before + done
      ensures b[..|before|] == before && b[|before|..|before| + |done|] == done
    {
      var all := b[..|before| + |done|];
      assert b[..|before|] == all[..|before|] && b[|before|..|before| + |done|] == all[|before|..];
    }

    static lemma Longer(b: seq<byte>, before: seq<byte>, done: seq<byte>, d: seq<byte>)
      requires |before| + |done| + |d| <= |b| && b[..|before| + |done|] == before + done
      requires b[|before| + |done|..|before| + |done| + |d|] == d
      ensures b[..|before| + |done| + |d|] == before + (done + d)
    {
      var n := |before| + |done|;
      assert b[..n + |d|] == b[..n] + b[n..n + |d|];
    }

    /** What the whole name comes to, when done has been decoded and rest is still to come. */
    static ghost predicate Goes(whole: Parsed<seq<byte>>, done: seq<byte>, rest: Parsed<seq<byte>>) {
      if whole.Wrong? then rest == whole else rest.Parsed? && rest.end == whole.end && whole.value == done + rest.value
    }

    static lemma GoesFirst(whole: Parsed<seq<byte>>)
      ensures Goes(whole, [], whole)
    {
    }

    static lemma GoesLast(s: seq<byte>, i: nat, uri: bool, whole: Parsed<seq<byte>>, done: seq<byte>)
      requires i <= |s| && (i == |s| || s[i] == SLASH) && Goes(whole, done, Name(s, i, uri))
      ensures whole == Parsed(done, i)
    {
      assert done + [] == done;
    }

    static lemma NameGoes(s: seq<byte>, i: nat, uri: bool, whole: Parsed<seq<byte>>, done: seq<byte>)
      requires i < |s| && s[i] != SLASH && Goes(whole, done, Name(s, i, uri))
      ensures Piece(s, i, uri).Wrong? ==> whole == Piece(s, i, uri)
      ensures Piece(s, i, uri).Parsed? ==>
        var p := Piece(s, i, uri); i < p.end <= |s| && Goes(whole, done + p.value, Name(s, p.end, uri))
    {
      hide Piece;
      var p := Piece(s, i, uri);
      if p.Parsed? {
        var rest := Name(s, p.end, uri);
        if rest.Parsed? { assert done + (p.value + rest.value) == done + p.value + rest.value; }
      }
    }

    /** The index of a name: digits only, no leading zero, and no wrap that shows. */
    static method ToIndex(name: seq<byte>) returns (index: nat)
      ensures index == IndexOf(name)
    {
      var isNumber := true;
      var k := 0;
      while k < |name|
        invariant k <= |name| && (isNumber <==> AllDigits(name[..k]))
      {
        if name[k] < ZERO || name[k] > NINE { isNumber := false; }
        k := k + 1;
      }
      assert name[..k] == name;
      if |name| == 0 { isNumber := false; }
      if isNumber && |name| > 1 && name[0] == ZERO { isNumber := false; }
      if !isNumber { return INVALID_INDEX; }
      var n: nat, j: nat := 0, 0;
      while j < |name|
        invariant j <= |name| && Fold(name, 0, 0) == Fold(name, j, n)
      {
        var digit: nat := name[j] - 48;
        var m := (n * 10 + digit) % 0x1_0000_0000;
        if m < n { return INVALID_INDEX; }
        n := m;
        j := j + 1;
      }
      index := n;
    }

    /** The tokens' names lie in the buffer, and their indexes are right. */
    static ghost predicate StoredIn(before: seq<byte>, refs: seq<TokenRef>, t: seq<Token>) {
      && |refs| == |t|
      && forall k :: 0 <= k < |t| ==>
        && refs[k].start + refs[k].length <= |before| && refs[k].index == t[k].index
        && before[refs[k].start..refs[k].start + refs[k].length] == t[k].name
    }

    static lemma StoredMore(before: seq<byte>, refs: seq<TokenRef>, t: seq<Token>, b: seq<byte>, ref: TokenRef,
        token: Token)
      requires StoredIn(before, refs, t) && before <= b
      requires ref.start + ref.length <= |b| && ref.index == token.index
        && b[ref.start..ref.start + ref.length] == token.name
      ensures StoredIn(b, refs + [ref], t + [token])
    {
      forall k | 0 <= k < |t| ensures b[refs[k].start..refs[k].start + refs[k].length] == t[k].name {
        assert b[refs[k].start..refs[k].start + refs[k].length]
          == b[..|before|][refs[k].start..refs[k].start + refs[k].length];
        assert b[..|before|] == before;
      }
    }

    /** Parse. The names, each with its terminator, never take more room than the text: the buffer is as long as it. */
    method Parse(s: seq<byte>)
      requires tokens == [] && error == None
      modifies this
      ensures fresh(nameBuffer) && nameBuffer.Length == |s|
      ensures match Pointer(s)
        case Parsed(t, _) => error == None && StoredIn(nameBuffer[..], tokens, t)
        case Wrong(code, offset) => error == Some((code, offset)) && tokens == []
    {
      nameBuffer := new byte[|s|];
      var uriFragment := |s| > 0 && s[0] == HASH;
      var i := if uriFragment then 1 else 0;
      if i != |s| && s[i] != SLASH {
        error := Some((TokenMustBeginWithSolidus, i));
        return;
      }
      ParseTokens(s, i, uriFragment);
    }

    /** One token: its solidus, its name with a terminator behind it, and its index. */
    method ParseToken(s: seq<byte>, i: nat, name: nat, uri: bool)
        returns (code: Option<ErrorCode>, end: nat, next: nat, ref: TokenRef)
      requires nameBuffer.Length == |s| && i < |s| && name + (if uri then 1 else 0) <= i
      modifies nameBuffer
      ensures nameBuffer[..name] == old(nameBuffer[..name])
      ensures match Name(s, i + 1, uri)
        case Parsed(d, e) =>
          && code == None && end == e && next == name + |d| + 1 && next + (if uri then 1 else 0) <= e
          && ref == TokenRef(name, |d|, IndexOf(d)) && nameBuffer[name..name + |d|] == d
        case Wrong(c, offset) => code == Some(c) && end == offset
    {
      hide *;
      ref := TokenRef(0, 0, 0);
      code, end, next := ParseName(s, i + 1, name, uri);
      if code.Some? { return; }
      var index := ToIndex(nameBuffer[name..next]);
      ref := TokenRef(name, next - name, index);
      ghost var b := nameBuffer[..next];
      nameBuffer[next] := 0;
      assert nameBuffer[..next] == b;
      assert nameBuffer[name..next] == b[name..] && nameBuffer[..name] == b[..name];
      next := next + 1;
    }

    /** The loop over the tokens. */
    method ParseTokens(s: seq<byte>, i0: nat, uri: bool)
      requires nameBuffer.Length == |s| && i0 == (if uri then 1 else 0) && i0 <= |s| && (i0 < |s| ==> s[i0] == SLASH)
      requires tokens == [] && error == None
      modifies this`tokens, this`error, nameBuffer
      ensures match Names(s, i0, uri)
        case Parsed(t, _) => error == None && StoredIn(nameBuffer[..], tokens, t)
        case Wrong(code, offset) => error == Some((code, offset)) && tokens == []
    {
      hide *;
      var i: nat, name: nat := i0, 0;
      ghost var t: seq<Token> := [];
      StoredNone(nameBuffer[..0]);
      StartMore(s, i0, uri);
      while i < |s|
        invariant i0 <= i <= |s| && (i < |s| ==> s[i] == SLASH) && name + (if uri then 1 else 0) <= i && error == None
        invariant StoredIn(nameBuffer[..name], tokens, t) && More(s, i0, uri, t, i)
        decreases |s| - i
      {
        ghost var before, at, start := nameBuffer[..name], i, name;
        var code, ref;
        NextName(s, i0, uri, t, i);
        code, i, name, ref := ParseToken(s, i, name, uri);
        if code.Some? {
          error := Some((code.value, i));
          tokens := [];
          return;
        }
        ghost var d := Name(s, at + 1, uri).value;
        Before(nameBuffer[..], before, start, name, d);
        StoredMore(before, tokens, t, nameBuffer[..name], ref, Token(d, IndexOf(d)));
        tokens := tokens + [ref];
        t := t + [Token(d, IndexOf(d))];
      }
      NoMore(s, i0, uri, t, i);
      StoredRest(nameBuffer[..], name, tokens, t);
    }

    /** The tokens t have been read up to i: the whole is them and the rest. */
    static ghost predicate More(s: seq<byte>, i0: nat, uri: bool, t: seq<Token>, i: nat) {
      && i <= |s| && i0 <= |s| && (i < |s| ==> s[i] == SLASH) && (i0 < |s| ==> s[i0] == SLASH)
      && match Names(s, i, uri)
         case Parsed(rest, e) => Names(s, i0, uri) == Parsed(t + rest, e)
         case Wrong(code, offset) => Names(s, i0, uri) == Wrong(code, offset)
    }

    static lemma StartMore(s: seq<byte>, i0: nat, uri: bool)
      requires i0 <= |s| && (i0 < |s| ==> s[i0] == SLASH)
      ensures More(s, i0, uri, [], i0)
    {
      var n := Names(s, i0, uri);
      assert n.Parsed? ==> [] + n.value == n.value;
      hide Name, IndexOf;
    }

    /** The next name, when it can be read and when it cannot. */
    static lemma NextName(s: seq<byte>, i0: nat, uri: bool, t: seq<Token>, i: nat)
      requires i < |s| && More(s, i0, uri, t, i)
      ensures i0 <= |s| && (i0 < |s| ==> s[i0] == SLASH)
      ensures match Name(s, i + 1, uri)
        case Parsed(d, e) => i < e <= |s| && (e < |s| ==> s[e] == SLASH)
          && More(s, i0, uri, t + [Token(d, IndexOf(d))], e)
        case Wrong(code, offset) => Names(s, i0, uri) == Wrong(code, offset)
    {
      var n := Name(s, i + 1, uri);
      if n.Parsed? {
        var token, rest := Token(n.value, IndexOf(n.value)), Names(s, n.end, uri);
        assert rest.Parsed? ==> t + ([token] + rest.value) == (t + [token]) + rest.value;
      }
      hide Name, IndexOf;
    }

    static lemma NoMore(s: seq<byte>, i0: nat, uri: bool, t: seq<Token>, i: nat)
      requires i == |s| && More(s, i0, uri, t, i)
      ensures i0 <= |s| && (i0 < |s| ==> s[i0] == SLASH) && Names(s, i0, uri) == Parsed(t, |s|)
    {
      assert t + [] == t;
    }

    static lemma Before(b: seq<byte>, before: seq<byte>, start: nat, name: nat, d: seq<byte>)
      requires |before| == start && start + |d| + 1 == name <= |b| && b[..start] == before && b[start..start + |d|] == d
      ensures before <= b[..name] && b[..name][start..start + |d|] == d
    {
    }

    static lemma StoredNone(b: seq<byte>)
      ensures StoredIn(b, [], [])
    {
    }

    static lemma StoredRest(b: seq<byte>, limit: nat, refs: seq<TokenRef>, t: seq<Token>)
      requires limit <= |b| && StoredIn(b[..limit], refs, t)
      ensures StoredIn(b, refs, t)
    {
      forall k | 0 <= k < |t| ensures b[refs[k].start..refs[k].start + refs[k].length] == t[k].name {
        assert b[refs[k].start..refs[k].start + refs[k].length]
          == b[..limit][refs[k].start..refs[k].start + refs[k].length];
      }
    }

    /** The code units of one sequence of name, each as a %XY triplet, if Validate finds nothing wrong with them. */
    static method PutSequence(name: seq<byte>, j: nat) returns (ok: bool, out: seq<byte>, taken: nat)
      requires j < |name|
      ensures var v := Validate(name, j);
        && taken == v.taken && (ok <==> v.ok && j + v.taken <= |name|)
        && (ok ==> out == Percents(name[j..j + v.taken]))
    {
      hide Validate;
      var v := Validate(name, j);
      taken, ok, out := v.taken, v.ok, [];
      if ok { ValidateInside(name, j); }
      var k := 0;
      assert ok ==> name[j..j + k] == [];
      while k < taken
        invariant k <= taken && (ok ==> j + taken <= |name| && out == Percents(name[j..j + k]))
      {
        var u := Peek(name, j + k);
        if ok {
          assert name[j..j + k + 1] == name[j..j + k] + [u];
          PercentsMore(name[j..j + k], u);
        }
        out := out + [PERCENT, HexChar(u / 16), HexChar(u % 16)];
        k := k + 1;
      }
    }

    static lemma {:induction false} PercentsMore(d: seq<byte>, u: byte)
      ensures Percents(d + [u]) == Percents(d) + [PERCENT, HexChar(u / 16), HexChar(u % 16)]
      decreases |d|
    {
      if d == [] {
        assert d + [u] == [u];
      } else {
        assert (d + [u])[1..] == d[1..] + [u];
        PercentsMore(d[1..], u);
      }
      hide HexChar;
    }

    /** One name, escaped. */
    static method PutName(name: seq<byte>, uri: bool) returns (ok: bool, out: seq<byte>)
      ensures ok <==> Written(name, 0, uri).Some?
      ensures ok ==> out == Written(name, 0, uri).value
    {
      hide Validate, Percents, NeedsPercent;
      ok, out := true, [];
      var j := 0;
      BehindNone(Written(name, 0, uri));
      while j < |name|
        invariant j <= |name| && Written(name, 0, uri) == Behind(out, Written(name, j, uri))
      {
        ghost var done := out;
        var c := name[j];
        var taken := 1;
        if c == TILDE {
          out := out + [TILDE, ZERO];
        } else if c == SLASH {
          out := out + [TILDE, ONE];
        } else if uri && NeedsPercent(c) {
          var d;
          ok, d, taken := PutSequence(name, j);
          if !ok { return; }
          out := out + d;
        } else {
          out := out + [c];
        }
        j := j + taken;
        BehindTwice(done, out[|done|..], Written(name, j, uri));
      }
    }

    static lemma BehindNone(r: Option<seq<byte>>)
      ensures Behind([], r) == r
    {
      if r.Some? { assert [] + r.value == r.value; }
    }

    static lemma BehindTwice(a: seq<byte>, b: seq<byte>, r: Option<seq<byte>>)
      ensures Behind(a, Behind(b, r)) == Behind(a + b, r)
    {
      if r.Some? { assert a + (b + r.value) == a + b + r.value; }
    }

    /** Stringify: the string form, or the URI fragment form, of the pointer's tokens t. */
    method Stringify(uri: bool, ghost t: seq<Token>) returns (ok: bool, os: seq<byte>)
      requires StoredIn(nameBuffer[..], tokens, t)
      ensures ok <==> Stringified(NamesOf(t), uri).Some?
      ensures ok ==> os == Stringified(NamesOf(t), uri).value
    {
      hide Written, IsUtf8;
      ok, os := true, if uri then [HASH] else [];
      ghost var names := NamesOf(t);
      var k := 0;
      assert names[0..] == names;
      while k < |tokens|
        invariant k <= |tokens| == |names| && Stringified(names, uri) == Behind(os, AllWritten(names[k..], uri))
      {
        var ref := tokens[k];
        NameAt(t, k);
        assert names[k..][1..] == names[k + 1..];
        var out;
        ok, out := PutName(nameBuffer[ref.start..ref.start + ref.length], uri);
        if !ok { return; }
        BehindTwice(os, [SLASH] + out, AllWritten(names[k + 1..], uri));
        os := os + ([SLASH] + out);
        k := k + 1;
      }
      assert names[k..] == [];
      assert os + [] == os;
    }

    static lemma {:induction false} NameAt(t: seq<Token>, k: nat)
      requires k < |t|
      ensures NamesOf(t)[k] == t[k].name
      decreases |t|
    {
      if k > 0 { NameAt(t[1..], k - 1); }
    }
  }
}
