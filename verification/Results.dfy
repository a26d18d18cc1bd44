/** Outcomes: datatypes shared by all modules. */
module Results {
  datatype Option<+T> = None | Some(value: T)

  datatype Result<+T> = Ok(value: T) | Err

  /** What becomes of an update sent to the API server: it is answered, it never arrives or is
      refused for another reason than its version, or it arrives and the answer is lost. */
  datatype Reply = Answered | NotDelivered | AnswerLost
}
