/** The JSON writer. */
module JsonWriter {
  import opened Bytes
  import opened Texts
  import opened JsonText
  import opened JsonSheet

  class Writer {
    var os: seq<byte>            // os_
    var levelStack: seq<Level>   // level_stack_
    var hasRoot: bool            // hasRoot_
    ghost var calls: seq<Call>   // the calls received so far

    /** The writer's state is that of its run. */
    ghost predicate Valid()
      reads this
    {
      var w := Play(calls);
      Playable(calls) && os == w.os && levelStack == w.levels && hasRoot == w.hasRoot
    }

    /** Whether a call would pass the writer's assertions. */
    ghost predicate Permits(c: Call)
      reads this
    {
      Allowed(Play(calls), c)
    }

    constructor ()
      ensures Valid() && calls == [] && os == []
    {
      os, levelStack, hasRoot, calls := [], [], false, [];
    }

    method Prefix()
      requires levelStack == [] ==> !hasRoot
      modifies this`os, this`levelStack, this`hasRoot
      ensures os == old(os) + Separator(old(levelStack))
      ensures levelStack == Entered(old(levelStack)) && hasRoot == (old(hasRoot) || old(levelStack) == [])
    {
      if |levelStack| != 0 {
        var level := levelStack[|levelStack| - 1];
        if level.valueCount > 0 {
          if level.inArray {
            os := os + [COMMA];
          } else {
            os := os + [if level.valueCount % 2 == 0 then COMMA else COLON];
          }
        }
        levelStack := levelStack[|levelStack| - 1 := level.(valueCount := level.valueCount + 1)];
      } else {
        hasRoot := true;
      }
    }

    /** WriteString: the quoted and escaped form. */
    method PutString(str: seq<byte>)
      modifies this`os
      ensures os == old(os) + Quoted(str)
    {
      hide Escaped, EscapedChar;
      ghost var before := os;
      os := os + [QUOTE];
      var i := 0;
      while i < |str|
        invariant i <= |str| && os + Escaped(str[i..]) == before + [QUOTE] + Escaped(str)
      {
        EscapedNext(str, i);
        Regroup(os, EscapedChar(str[i]), Escaped(str[i + 1..]));
        PutChar(str[i]);
        i := i + 1;
      }
      EscapedNone();
      assert str[i..] == [] && os + [] == os;
      Regroup(before + [QUOTE], Escaped(str), [QUOTE]);
      Regroup(before, [QUOTE], Escaped(str) + [QUOTE]);
      Regroup([QUOTE], Escaped(str), [QUOTE]);
      os := os + [QUOTE];
    }

    /** One byte of a string. */
    method PutChar(c: byte)
      modifies this`os
      ensures os == old(os) + EscapedChar(c)
    {
      if Escape(c) != 0 {
        os := os + [BACKSLASH, Escape(c)];
        if Escape(c) == LOWER_U {
          os := os + [48, 48, HexChar(c / 16), HexChar(c % 16)];
        }
      } else {
        os := os + [c];
      }
    }

    /** The writer has done what the call c asks, from the state at the end of the run before. */
    lemma Extended(before: seq<Call>, c: Call)
      requires Playable(before) && Allowed(Play(before), c) && calls == before + [c]
      requires var w := Step(Play(before), c); os == w.os && levelStack == w.levels && hasRoot == w.hasRoot
      ensures Valid()
    {
      assert calls[..|calls| - 1] == before;
      hide Step, Allowed;
    }

    /** A value or a name: its separator and its text. */
    method PutValue(text: seq<byte>, ghost c: Call)
      requires Valid() && Permits(c) && text == Body(c)
      requires !c.BeginObject? && !c.BeginArray? && !c.FinishObject? && !c.FinishArray?
      modifies this
      ensures Valid() && calls == old(calls) + [c]
    {
      ghost var before := calls;
      hide Quoted, Play, Playable, Entered, Separator, Body;
      Prefix();
      os := os + text;
      calls := calls + [c];
      Extended(before, c);
    }

    method Null()
      requires Valid() && Permits(WriteNull)
      modifies this
      ensures Valid() && calls == old(calls) + [WriteNull]
    {
      PutValue([110, 117, 108, 108], WriteNull);
    }

    method Bool(b: bool)
      requires Valid() && Permits(WriteBool(b))
      modifies this
      ensures Valid() && calls == old(calls) + [WriteBool(b)]
    {
      PutValue(if b then [116, 114, 117, 101] else [102, 97, 108, 115, 101], WriteBool(b));
    }

    /** Int, Uint, Int64, Uint64 and Double, which differ in how they make the text. */
    method Number(text: seq<byte>)
      requires Valid() && Permits(WriteNumber(text))
      modifies this
      ensures Valid() && calls == old(calls) + [WriteNumber(text)]
    {
      PutValue(text, WriteNumber(text));
    }

    /** A string value, a name, or a raw number. */
    method PutQuoted(str: seq<byte>, ghost c: Call)
      requires Valid() && Permits(c) && (c == WriteString(str) || c == WriteKey(str) || c == WriteRawNumber(str))
      modifies this
      ensures Valid() && calls == old(calls) + [c]
    {
      ghost var before := calls;
      hide Quoted, Play, Playable, Entered, Separator;
      Prefix();
      PutString(str);
      calls := calls + [c];
      Extended(before, c);
    }

    method String(str: seq<byte>)
      requires Valid() && Permits(WriteString(str))
      modifies this
      ensures Valid() && calls == old(calls) + [WriteString(str)]
    {
      PutQuoted(str, WriteString(str));
    }

    method Key(str: seq<byte>)
      requires Valid() && Permits(WriteKey(str))
      modifies this
      ensures Valid() && calls == old(calls) + [WriteKey(str)]
    {
      PutQuoted(str, WriteKey(str));
    }

    method RawNumber(str: seq<byte>)
      requires Valid() && Permits(WriteRawNumber(str))
      modifies this
      ensures Valid() && calls == old(calls) + [WriteRawNumber(str)]
    {
      PutQuoted(str, WriteRawNumber(str));
    }

    method StartObject()
      requires Valid() && Permits(BeginObject)
      modifies this
      ensures Valid() && calls == old(calls) + [BeginObject]
    {
      ghost var before := calls;
      hide Play, Playable, Entered, Separator;
      Prefix();
      levelStack := levelStack + [Level(false, 0)];
      os := os + [LBRACE];
      calls := calls + [BeginObject];
      Extended(before, BeginObject);
    }

    method EndObject()
      requires Valid() && Permits(FinishObject)
      modifies this
      ensures Valid() && calls == old(calls) + [FinishObject]
    {
      ghost var before := calls;
      hide Play, Playable;
      levelStack := levelStack[..|levelStack| - 1];
      os := os + [RBRACE];
      calls := calls + [FinishObject];
      Extended(before, FinishObject);
    }

    method StartArray()
      requires Valid() && Permits(BeginArray)
      modifies this
      ensures Valid() && calls == old(calls) + [BeginArray]
    {
      ghost var before := calls;
      hide Play, Playable, Entered, Separator;
      Prefix();
      levelStack := levelStack + [Level(true, 0)];
      os := os + [LBRACKET];
      calls := calls + [BeginArray];
      Extended(before, BeginArray);
    }

    method EndArray()
      requires Valid() && Permits(FinishArray)
      modifies this
      ensures Valid() && calls == old(calls) + [FinishArray]
    {
      ghost var before := calls;
      hide Play, Playable;
      levelStack := levelStack[..|levelStack| - 1];
      os := os + [RBRACKET];
      calls := calls + [FinishArray];
      Extended(before, FinishArray);
    }
  }

  lemma Regroup(a: seq<byte>, b: seq<byte>, c: seq<byte>)
    ensures (a + b) + c == a + (b + c)
  {
  }

  lemma EscapedNone()
    ensures Escaped([]) == []
  {
  }

  lemma EscapedNext(str: seq<byte>, i: nat)
    requires i < |str|
    ensures Escaped(str[i..]) == EscapedChar(str[i]) + Escaped(str[i + 1..])
  {
    assert str[i..][1..] == str[i + 1..];
  }
}
