/** Encoding a stream of tags and decoding what was written. */
module XmlRoundTrip {
  import opened XmlSpec
  import XmlPrinter
  import XmlDecoder

  lemma {:induction false} ReadAllPrefix(raws: seq<Tag>, n: nat)
    requires n <= |raws| && ReadAll(raws).Reading?
    ensures ReadAll(raws[..n]).Reading?
    decreases |raws| - n
  {
    if n < |raws| {
      ReadAllPrefix(raws, n + 1);
      assert raws[..n + 1][..n] == raws[..n];
    } else {
      assert raws[..n] == raws;
    }
  }

  /** A decoder that is given a raw stream takes all of it exactly if it can be read, and returns what it means. */
  method Decode(raws: seq<Tag>) returns (ok: bool, tokens: seq<Tag>)
    ensures ok <==> ReadAll(raws).Reading?
    ensures ok ==> tokens == ReadAll(raws).tokens
  {
    hide Read, Extend;
    var d := new XmlDecoder.Decoder(raws);
    tokens := [];
    ghost var n := 0;
    while d.input != []
      invariant 0 <= n <= |raws| && d.input == raws[n..] && d.Valid() && !d.failed
      invariant fresh(d) && (forall i :: 0 <= i < |d.live| ==> fresh(d.live[i])) &&
        (forall i :: 0 <= i < |d.spare| ==> fresh(d.spare[i]))
      invariant ReadAll(raws[..n]) == Reading(Reader(d.ns, d.open), tokens)
      decreases |raws| - n
    {
      assert raws[..n + 1][..n] == raws[..n] && raws[..n + 1][n] == raws[n];
      StepOfReadAll(Reader(d.ns, d.open), tokens, raws[n]);
      var r := d.Token();
      if !r.Got? {
        ReadAllFails(raws, n + 1);
        return false, tokens;
      }
      tokens := tokens + [r.token];
      n := n + 1;
    }
    assert raws[..|raws|] == raws;
    return true, tokens;
  }

  lemma StepOfReadAll(r: Reader, tokens: seq<Tag>, raw: Tag)
    ensures Extend(Reading(r, tokens), raw).Reading? <==> Read(r, raw).Token?
    ensures Read(r, raw).Token? ==>
      && (r.open != [] ==> !r.open[|r.open| - 1].Stop?)
      && Extend(Reading(r, tokens), raw) == Reading(Read(r, raw).reader, tokens + [Read(r, raw).token])
  {
    hide Declare, Translate, TranslateAttrs;
  }

  lemma ReadAllFails(raws: seq<Tag>, n: nat)
    requires n <= |raws| && !ReadAll(raws[..n]).Reading?
    ensures !ReadAll(raws).Reading?
  {
    if ReadAll(raws).Reading? {
      ReadAllPrefix(raws, n);
    }
  }

  /**
   A stream survives encoding and decoding exactly if it is well-nested and each of its start
   tags reads back with the bindings inside it.
   */
  method RoundTrip(isName: string -> bool, tokens: seq<Tag>) returns (ok: bool, decoded: seq<Tag>)
    ensures ok && SameTokens(decoded, tokens) <==>
      XmlPrinter.Nested(tokens, []) && XmlPrinter.AllReadBack(isName, tokens, XmlPrinter.FRESH)
  {
    hide *;
    decoded := [];
    var raws;
    ok, raws := XmlPrinter.Encode(isName, tokens);
    if ok {
      ReturnsMeans(ReadAll(raws), tokens);
      ok, decoded := Decode(raws);
    }
  }

  lemma ReturnsMeans(rd: Reading, written: seq<Tag>)
    ensures Returns(rd, written) <==> rd.Reading? && SameTokens(rd.tokens, written)
  {}
}
