// A reply longer than the client takes (src/helper.rs, src/helper/update.rs): the
// refusal of an update quotes the signature's comment, and quoting can make it pass
// 64 KiB.

module LongReplies {
  import opened Bytes
  import opened Protocol
  import Versions

  /** The bytes of an ASCII text. */
  function Ascii(s: string): (t: Text)
    requires forall c :: c in s ==> c < '\U{80}'
    ensures |t| == |s| && forall i :: 0 <= i < |s| ==> t[i] == s[i] as int
  {
    if s == "" then [] else
      assert s[0] in s && forall c :: c in s[1..] ==> c in s;
      [AsciiByte(s[0])] + Ascii(s[1..])
  }

  function AsciiByte(c: char): (b: byte)
    requires c < '\U{80}'
    ensures b == c as int
  {
    c as int
  }

  function LongRefusal(): (t: Text)
    ensures |t| > MAX_MESSAGE
  {
    Versions.LongRefusal();
    Ascii(Versions.WrongCommentText(Versions.Deletes(11000)))
  }

  /** A service that refuses an update because its signature carries 11000 delete
      characters for a comment leaves the client off the message boundary: the text
      is still unread, and the next reply is read from inside it. */
  method AskUnderLongComment(s: Session) returns (o: Outcome<Text>)
    requires s.Idle() && s.sv.Sound()
    requires s.sv.update(s.conn.st.updates) == UpdateFailed(LongRefusal())
    modifies s
    ensures o == Failed(MessageTooLong)
    ensures !s.Idle() && s.conn.ended.None? && s.conn.out == LongRefusal()
  {
    o := s.AskUpdate();
  }
}
