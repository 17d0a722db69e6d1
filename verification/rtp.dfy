/** The round-trip-plausibility flag of an AVL record.

    `codec_8e_parser` renders the device time and the server's reception
    time at one-second resolution, parses both back and sets rtp to 0 when
    they are more than 60 seconds apart, 1 otherwise.  Times here are
    integer seconds since the Unix epoch.
 */
module Rtp {

  const Window: int := 60

  function Abs(x: int): nat { if x < 0 then -x else x }

  /** The flag as the comparison intends it: both instants in UTC. */
  function Rtp(receptionSeconds: int, deviceSeconds: int): (r: nat)
    ensures r <= 1
    ensures r == 1 <==> deviceSeconds - Window <= receptionSeconds <= deviceSeconds + Window
  {
    if Abs(receptionSeconds - deviceSeconds) > Window then 0 else 1
  }

  lemma RtpSymmetric(a: int, b: int)
    ensures Rtp(a, b) == Rtp(b, a)
  {
  }

  lemma RtpSamples(t: int)
    ensures Rtp(t, t) == 1
    ensures Rtp(t + 60, t) == 1 && Rtp(t + 61, t) == 0
    ensures Rtp(t + 120, t) == 0 && Rtp(t, t + 120) == 0
  {
  }

  /** The flag as written.  `device_time_stamper` returns its renderings as
      (local, utc) while the parser unpacks them as (utc, local), so the
      "UTC" device time compared with the UTC reception time is the device
      time shifted into the server's zone by `localOffset` seconds. */
  function RtpAsWritten(receptionSeconds: int, deviceSeconds: int, localOffset: int): (r: nat)
    ensures r == Rtp(receptionSeconds - localOffset, deviceSeconds)
  {
    Rtp(receptionSeconds, deviceSeconds + localOffset)
  }

  /** On a server whose zone is one hour from UTC a record received the
      instant it was taken is flagged implausible. */
  lemma AsWrittenFlagsFreshRecord(t: int)
    ensures RtpAsWritten(t, t, 3600) == 0
    ensures Rtp(t, t) == 1
  {
  }

  /** The two agree exactly when the server's zone is within a minute of UTC
      for a record received the instant it was taken. */
  lemma AsWrittenAgreesOnlyNearUtc(t: int, localOffset: int)
    ensures RtpAsWritten(t, t, localOffset) == Rtp(t, t) <==> Abs(localOffset) <= Window
  {
  }
}
