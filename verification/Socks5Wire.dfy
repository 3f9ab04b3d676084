/** RFC 1928 by its bytes: the encodings and the replies, without the names the handler uses for them. */
module Socks5Wire {
  import opened Bytes
  import opened Socks5
  import Utf8

  /** Sections 3, 4 and 5: what a client sends. */
  lemma SentBytes(methods: bytes, o4: bytes, o16: bytes, name: bytes, reserved: byte, d: Dest, port: nat)
    requires |methods| <= 255 && |o4| == 4 && |o16| == 16 && |name| <= 255 && Utf8.Valid(name)
    requires ValidDest(d) && port < 0x10000
    ensures EncodeGreeting(methods) == [5, |methods|] + methods
    ensures EncodeDest(Ipv4(o4)) == [1] + o4
    ensures EncodeDest(Name(name)) == [3, |name|] + name
    ensures EncodeDest(Ipv6(o16)) == [4] + o16
    ensures EncodeRequest(reserved, d, port) == [5, 1, reserved] + EncodeDest(d) + [port / 256, port % 256]
  {
    hide Utf8.Valid, ValidDest;
  }

  /** The greeting is all there, of version 5, and names method 0. */
  predicate Offers(input: bytes) {
    |input| >= 2 && input[0] == 5 && |input| >= 2 + input[1] as int && 0 in input[2..2 + input[1] as int]
  }

  /** Section 6: the ten bytes of a reply. */
  function ReplyBytes(code: byte): bytes {
    [5, code, 0, 1, 0, 0, 0, 0, 0, 0]
  }

  /** What is answered, byte for byte: 255 when no-auth is not offered; then, behind the selection of it, code
      7 for a command that is not CONNECT, 8 for an unknown address type, and for a connect 1 with no overlay,
      4 when the dial fails and 0 when it succeeds. */
  lemma AnsweredBytes(input: bytes, overlay: Overlay)
    ensures |input| >= 2 && input[0] == 5 && |input| >= 2 + input[1] as int && !Offers(input) ==>
              Answer(ReadStream(input), overlay) == [5, 255]
    ensures Offers(input) ==>
              var at := 2 + input[1] as int;
              && (|input| >= at + 4 && input[at] == 5 && input[at + 1] != 1 ==>
                    Answer(ReadStream(input), overlay) == [5, 0] + ReplyBytes(7))
              && (|input| >= at + 4 && input[at] == 5 && input[at + 1] == 1 && input[at + 3] !in {1, 3, 4} ==>
                    Answer(ReadStream(input), overlay) == [5, 0] + ReplyBytes(8))
    ensures ReadStream(input).Connect? ==>
              var Connect(_, d, port) := ReadStream(input);
              Answer(ReadStream(input), overlay)
              == [5, 0] + ReplyBytes(if overlay == None then 1 else if overlay.value(d, port) then 0 else 4)
  {
    hide Utf8.Valid;
  }

  /** How much of a stream that fails is taken: all of it when it ends too early, otherwise what had to be
      read to see that it fails. */
  lemma TakenOnFailure(input: bytes)
    ensures |input| < 2 || (input[0] == 5 && |input| < 2 + input[1] as int) ==> ReadStream(input) == Silent(|input|)
    ensures |input| >= 2 && input[0] != 5 ==> ReadStream(input) == Silent(2)
    ensures |input| >= 2 && input[0] == 5 && |input| >= 2 + input[1] as int && !Offers(input) ==>
              ReadStream(input) == NoMethod(2 + input[1] as int)
    ensures Offers(input) ==>
              var at := 2 + input[1] as int;
              && (CutShort(input, at) && !NamesNoText(input, at) ==> ReadStream(input) == Dropped(|input|))
              && (NamesNoText(input, at) ==> ReadStream(input) == Dropped(at + 5 + input[at + 4] as int))
              && (|input| >= at + 4 && input[at] != 5 ==> ReadStream(input) == Dropped(at + 4))
              && (|input| >= at + 4 && input[at] == 5 && (input[at + 1] != 1 || input[at + 3] !in {1, 3, 4}) ==>
                    ReadStream(input).Refused? && ReadStream(input).used == at + 4)
  {
    hide Utf8.Valid;
  }
}
