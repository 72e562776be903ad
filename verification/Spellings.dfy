/** The characters and words that the models' constants stand for. */
module Spellings {
  import opened Bytes
  import RespFormat
  import RespEncoding
  import RedisBuffer
  import SdsQuoting
  import XmlGrammar

  function Ascii(text: string): seq<byte>
    requires forall i :: 0 <= i < |text| ==> text[i] < 128 as char
  {
    seq(|text|, i requires 0 <= i < |text| => text[i] as byte)
  }

  lemma Characters()
    ensures [SPACE, QUOT, PERCENT, PLUS, MINUS, ZERO, NINE, COLON] == Ascii(" \"%+-09:")
    ensures [UPPER_A, UPPER_D, UPPER_S, LOWER_A, LOWER_B, LOWER_X, BAR] == Ascii("ADSabx|")
    ensures [NUL, TAB, LF, CR] == [0, 9, 10, 13]
  {
  }

  lemma ProtocolCharacters()
    ensures [RespEncoding.DOLLAR, RespEncoding.STAR] == Ascii("$*") && RespEncoding.CRLF == Ascii("\r\n")
    ensures [RespFormat.LOWER_S, RespFormat.HASH, RespFormat.DOT] == Ascii("s#.")
    ensures [RespFormat.LOWER_H, RespFormat.LOWER_L] == Ascii("hl")
    ensures RespFormat.SPECIFIERS == Ascii("diouxXeEfFgGaA")
  {
  }

  lemma RedisWords()
    ensures RedisBuffer.HMSET == Ascii("HMSET")
    ensures RedisBuffer.PUBLISH == Ascii("publish")
  {
  }

  lemma EscapeCharacters()
    ensures [SdsQuoting.BACKSLASH, SdsQuoting.LOWER_N, SdsQuoting.LOWER_R, SdsQuoting.LOWER_T] == Ascii("\\nrt")
    ensures [SdsQuoting.BELL, SdsQuoting.BACKSPACE] == [7, 8]
  {
  }

  lemma MarkupCharacters()
    ensures [XmlGrammar.BANG, XmlGrammar.HASH, XmlGrammar.AMP, XmlGrammar.APOS, XmlGrammar.SLASH] == Ascii("!#&'/")
    ensures [XmlGrammar.SEMI, XmlGrammar.LT, XmlGrammar.EQ, XmlGrammar.GT, XmlGrammar.QUESTION] == Ascii(";<=>?")
    ensures [XmlGrammar.OPEN, XmlGrammar.CLOSE, XmlGrammar.LOWER_G, XmlGrammar.LOWER_L, XmlGrammar.LOWER_Q]
         == Ascii("[]glq")
  {
  }

  lemma MarkupWords()
    ensures XmlGrammar.CDATA_OPEN == Ascii("[CDATA[") && XmlGrammar.CDATA_END == Ascii("]]>")
    ensures XmlGrammar.COMMENT_END == Ascii("-->") && XmlGrammar.PI_END == Ascii("?>")
    ensures XmlGrammar.DOCTYPE == Ascii("DOCTYPE") && XmlGrammar.BOM == [239, 187, 191]
    ensures XmlGrammar.MP_SEMI == Ascii("mp;") && XmlGrammar.POS_SEMI == Ascii("pos;")
    ensures XmlGrammar.UOT_SEMI == Ascii("uot;") && XmlGrammar.T_SEMI == Ascii("t;")
  {
  }
}
