/** The tables of MD5: the 64 lines of `md5_process`, and the constants of RFC 1321. */
module Md5Tables {
  import opened Md5Program

  // The four groups of lines between the redefinitions of `F`.

  function Round1(): (ls: seq<Line>)
    ensures |ls| == 16
  {
    [
      P(A, B, C, D, 0, 7, 0xD76AA478), P(D, A, B, C, 1, 12, 0xE8C7B756),
      P(C, D, A, B, 2, 17, 0x242070DB), P(B, C, D, A, 3, 22, 0xC1BDCEEE),
      P(A, B, C, D, 4, 7, 0xF57C0FAF), P(D, A, B, C, 5, 12, 0x4787C62A),
      P(C, D, A, B, 6, 17, 0xA8304613), P(B, C, D, A, 7, 22, 0xFD469501),
      P(A, B, C, D, 8, 7, 0x698098D8), P(D, A, B, C, 9, 12, 0x8B44F7AF),
      P(C, D, A, B, 10, 17, 0xFFFF5BB1), P(B, C, D, A, 11, 22, 0x895CD7BE),
      P(A, B, C, D, 12, 7, 0x6B901122), P(D, A, B, C, 13, 12, 0xFD987193),
      P(C, D, A, B, 14, 17, 0xA679438E), P(B, C, D, A, 15, 22, 0x49B40821)
    ]
  }

  function Round2(): (ls: seq<Line>)
    ensures |ls| == 16
  {
    [
      P(A, B, C, D, 1, 5, 0xF61E2562), P(D, A, B, C, 6, 9, 0xC040B340),
      P(C, D, A, B, 11, 14, 0x265E5A51), P(B, C, D, A, 0, 20, 0xE9B6C7AA),
      P(A, B, C, D, 5, 5, 0xD62F105D), P(D, A, B, C, 10, 9, 0x02441453),
      P(C, D, A, B, 15, 14, 0xD8A1E681), P(B, C, D, A, 4, 20, 0xE7D3FBC8),
      P(A, B, C, D, 9, 5, 0x21E1CDE6), P(D, A, B, C, 14, 9, 0xC33707D6),
      P(C, D, A, B, 3, 14, 0xF4D50D87), P(B, C, D, A, 8, 20, 0x455A14ED),
      P(A, B, C, D, 13, 5, 0xA9E3E905), P(D, A, B, C, 2, 9, 0xFCEFA3F8),
      P(C, D, A, B, 7, 14, 0x676F02D9), P(B, C, D, A, 12, 20, 0x8D2A4C8A)
    ]
  }

  function Round3(): (ls: seq<Line>)
    ensures |ls| == 16
  {
    [
      P(A, B, C, D, 5, 4, 0xFFFA3942), P(D, A, B, C, 8, 11, 0x8771F681),
      P(C, D, A, B, 11, 16, 0x6D9D6122), P(B, C, D, A, 14, 23, 0xFDE5380C),
      P(A, B, C, D, 1, 4, 0xA4BEEA44), P(D, A, B, C, 4, 11, 0x4BDECFA9),
      P(C, D, A, B, 7, 16, 0xF6BB4B60), P(B, C, D, A, 10, 23, 0xBEBFBC70),
      P(A, B, C, D, 13, 4, 0x289B7EC6), P(D, A, B, C, 0, 11, 0xEAA127FA),
      P(C, D, A, B, 3, 16, 0xD4EF3085), P(B, C, D, A, 6, 23, 0x04881D05),
      P(A, B, C, D, 9, 4, 0xD9D4D039), P(D, A, B, C, 12, 11, 0xE6DB99E5),
      P(C, D, A, B, 15, 16, 0x1FA27CF8), P(B, C, D, A, 2, 23, 0xC4AC5665)
    ]
  }

  function Round4(): (ls: seq<Line>)
    ensures |ls| == 16
  {
    [
      P(A, B, C, D, 0, 6, 0xF4292244), P(D, A, B, C, 7, 10, 0x432AFF97),
      P(C, D, A, B, 14, 15, 0xAB9423A7), P(B, C, D, A, 5, 21, 0xFC93A039),
      P(A, B, C, D, 12, 6, 0x655B59C3), P(D, A, B, C, 3, 10, 0x8F0CCC92),
      P(C, D, A, B, 10, 15, 0xFFEFF47D), P(B, C, D, A, 1, 21, 0x85845DD1),
      P(A, B, C, D, 8, 6, 0x6FA87E4F), P(D, A, B, C, 15, 10, 0xFE2CE6E0),
      P(C, D, A, B, 6, 15, 0xA3014314), P(B, C, D, A, 13, 21, 0x4E0811A1),
      P(A, B, C, D, 4, 6, 0xF7537E82), P(D, A, B, C, 11, 10, 0xBD3AF235),
      P(C, D, A, B, 2, 15, 0x2AD7D2BB), P(B, C, D, A, 9, 21, 0xEB86D391)
    ]
  }

  function CodeLines(): (ls: seq<Line>)
    ensures |ls| == 64
  {
    Round1() + Round2() + Round3() + Round4()
  }

  // T[1..64] of section 3.4 of RFC 1321: the integer part of 4294967296 times abs(sin(i)).

  function Sine1(): (t: seq<int>)
    ensures |t| == 16
  {
    [
      3614090360, 3905402710, 606105819, 3250441966,
      4118548399, 1200080426, 2821735955, 4249261313,
      1770035416, 2336552879, 4294925233, 2304563134,
      1804603682, 4254626195, 2792965006, 1236535329
    ]
  }

  function Sine2(): (t: seq<int>)
    ensures |t| == 16
  {
    [
      4129170786, 3225465664, 643717713, 3921069994,
      3593408605, 38016083, 3634488961, 3889429448,
      568446438, 3275163606, 4107603335, 1163531501,
      2850285829, 4243563512, 1735328473, 2368359562
    ]
  }

  function Sine3(): (t: seq<int>)
    ensures |t| == 16
  {
    [
      4294588738, 2272392833, 1839030562, 4259657740,
      2763975236, 1272893353, 4139469664, 3200236656,
      681279174, 3936430074, 3572445317, 76029189,
      3654602809, 3873151461, 530742520, 3299628645
    ]
  }

  function Sine4(): (t: seq<int>)
    ensures |t| == 16
  {
    [
      4096336452, 1126891415, 2878612391, 4237533241,
      1700485571, 2399980690, 4293915773, 2240044497,
      1873313359, 4264355552, 2734768916, 1309151649,
      4149444226, 3174756917, 718787259, 3951481745
    ]
  }

  function Sine(): (t: seq<int>)
    ensures |t| == 64
  {
    Sine1() + Sine2() + Sine3() + Sine4()
  }

  lemma Round1Matches()
    ensures forall i :: 0 <= i < 16 ==> ValidLine(Round1()[i]) && Scheduled(Round1()[i], i, Sine1()[i])
  {
  }

  lemma Round2Matches()
    ensures forall i :: 0 <= i < 16 ==> ValidLine(Round2()[i]) && Scheduled(Round2()[i], 16 + i, Sine2()[i])
  {
  }

  lemma Round3Matches()
    ensures forall i :: 0 <= i < 16 ==> ValidLine(Round3()[i]) && Scheduled(Round3()[i], 32 + i, Sine3()[i])
  {
  }

  lemma Round4Matches()
    ensures forall i :: 0 <= i < 16 ==> ValidLine(Round4()[i]) && Scheduled(Round4()[i], 48 + i, Sine4()[i])
  {
  }

  /** Every line of the code is the RFC's operation of the same number. */
  lemma CodeLinesMatch()
    ensures ValidLines(CodeLines()) && FollowsSchedule(CodeLines(), Sine())
  {
    Round1Matches();
    Round2Matches();
    Round3Matches();
    Round4Matches();
    var ls, t := CodeLines(), Sine();
    forall i | 0 <= i < 64 ensures ValidLine(ls[i]) && Scheduled(ls[i], i, t[i]) {
      if i < 16 {
        assert ls[i] == Round1()[i] && t[i] == Sine1()[i];
      } else if i < 32 {
        assert ls[i] == Round2()[i - 16] && t[i] == Sine2()[i - 16];
      } else if i < 48 {
        assert ls[i] == Round3()[i - 32] && t[i] == Sine3()[i - 32];
      } else {
        assert ls[i] == Round4()[i - 48] && t[i] == Sine4()[i - 48];
      }
    }
  }
}
