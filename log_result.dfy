/** The audit table's `Result` column codes. */
module LogResults {

  datatype LogResult = Expired | Claimed | Sent {

    /** The declared code of each constant. */
    function Value(): (v: int)
      ensures v == 0 <==> this == Expired
      ensures v == 1 <==> this == Claimed
      ensures v == 2 <==> this == Sent
    {
      match this
      case Expired => 0
      case Claimed => 1
      case Sent => 2
    }
  }
}
