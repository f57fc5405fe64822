/**
 `QCefContextMenuMediaTypeFlags`: the kind of node the context menu was
 invoked on. Unlike the flag enumerations this one is exclusive: exactly one
 value applies, and the values are consecutive integers, not bits.
 */
module MediaType {
  import opened Options
  import BitMask

  datatype MediaType = NoMedia | Image | Video | Audio | File | Plugin

  /** The enumerators in declaration order; each takes its position. */
  const Declared: seq<MediaType> := [NoMedia, Image, Video, Audio, File, Plugin]

  function ToInt(t: MediaType): (n: int)
    ensures 0 <= n < |Declared|
    ensures Declared[n] == t
  {
    match t
    case NoMedia => 0
    case Image => 1
    case Video => 2
    case Audio => 3
    case File => 4
    case Plugin => 5
  }

  /** The media type a raw value names, if any. */
  function FromInt(n: int): (r: Option<MediaType>)
    ensures r.Some? <==> 0 <= n <= 5
    ensures r.Some? ==> ToInt(r.value) == n
  {
    if 0 <= n < |Declared| then Some(Declared[n]) else None
  }

  /** Each media type survives the trip through its integer value. */
  lemma FromIntToInt(t: MediaType)
    ensures FromInt(ToInt(t)) == Some(t)
  {
  }

  /** The values are exclusive: one integer names at most one media type. */
  lemma ToIntInjective(t: MediaType, u: MediaType)
    ensures ToInt(t) == ToInt(u) <==> t == u
  {
  }

  /** Exclusive, not combinable: IMAGE | VIDEO is AUDIO's value, so OR-ing two
      media types does not describe both of them. */
  lemma NotCombinable()
    ensures BitMask.Or(ToInt(Image), ToInt(Video)) == ToInt(Audio)
    ensures FromInt(BitMask.Or(ToInt(Image), ToInt(Video))) == Some(Audio)
  {
  }
}
