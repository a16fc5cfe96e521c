/** ben.h: the streaming emitter. Every call appends to a growing byte array. */
module Ben {
  import opened ByteString
  import opened Numerals
  import opened BencodeTree

  class DarrayChar {
    var bytes: Bytes

    constructor ()
      ensures bytes == []
    {
      bytes := [];
    }

    method Append(b: Byte)
      modifies this
      ensures bytes == old(bytes) + [b]
    {
      bytes := bytes + [b];
    }

    method DictBegin()
      modifies this
      ensures bytes == old(bytes) + [CH_D]
    {
      Append(CH_D);
    }

    method DictEnd()
      modifies this
      ensures bytes == old(bytes) + [CH_E]
    {
      Append(CH_E);
    }

    method ListBegin()
      modifies this
      ensures bytes == old(bytes) + [CH_L]
    {
      Append(CH_L);
    }

    method ListEnd()
      modifies this
      ensures bytes == old(bytes) + [CH_E]
    {
      Append(CH_E);
    }

    /** The length in decimal, a colon, and the payload up to its first zero byte. */
    method String(s: Bytes)
      requires |s| <= INT_MAX
      modifies this
      ensures bytes == old(bytes) + EmittedText(s)
    {
      bytes := bytes + (Numeral(|s|) + [CH_COLON] + CString(s));
    }

    method Integer(i: int)
      requires INT64_MIN <= i <= INT64_MAX
      modifies this
      ensures bytes == old(bytes) + EncodeInteger(i)
    {
      bytes := bytes + [CH_I] + SignedNumeral(i) + [CH_E];
    }

    /** str is a C string: its length is where its first zero byte would be. */
    method StringC(str: Bytes)
      requires NulFreeText(str) && |str| <= INT_MAX
      modifies this
      ensures bytes == old(bytes) + EncodeText(str)
    {
      String(str);
      EmittedTextLength(str);
    }

    /** A client writing a whole value with the calls above, children in order. */
    method Write(t: Tree)
      requires Emittable(t)
      modifies this
      ensures bytes == old(bytes) + Emitted(t)
      ensures bytes == old(bytes) + Encode(t) <==> NulFree(t)
      decreases t, 0
    {
      EmittedIffNulFree(t);
      match t {
        case Integer(i) =>
          Integer(i);
        case Text(s) =>
          String(s);
        case List(ts) =>
          ListBegin();
          WriteItems(ts);
          ListEnd();
        case Dict(es) =>
          DictBegin();
          WriteEntries(es);
          DictEnd();
      }
      assert bytes == old(bytes) + Emitted(t);
      assert bytes[|old(bytes)|..] == Emitted(t);
    }

    method WriteItems(ts: seq<Tree>)
      requires EmittableItems(ts)
      modifies this
      ensures bytes == old(bytes) + EmittedItems(ts)
      decreases ts, 1
    {
      if ts != [] {
        ghost var before := bytes;
        Write(ts[0]);
        WriteItems(ts[1..]);
        Associate(before, Emitted(ts[0]), EmittedItems(ts[1..]));
      }
    }

    method WriteEntries(es: seq<Entry>)
      requires EmittableEntries(es)
      modifies this
      ensures bytes == old(bytes) + EmittedEntries(es)
      decreases es, 1
    {
      if es != [] {
        ghost var before := bytes;
        String(es[0].key);
        Write(es[0].val);
        WriteEntries(es[1..]);
        Associate(before, EmittedText(es[0].key), Emitted(es[0].val));
        Associate(before, EmittedText(es[0].key) + Emitted(es[0].val), EmittedEntries(es[1..]));
      }
    }
  }
}
