/** What the API views answer: a body, 404, or 403 with the reason given in
    its `detail` message (quiz/views.py). */
module Responses {

  /** The 403 reasons, one per `detail` message of the views. */
  datatype Denial =
    | QuizClosed                // 'Quiz is closed'
    | CreatorCannotParticipate  // 'Quiz creator cannot participate on his own quiz'
    | AlreadyParticipated       // 'User already participated on quiz'
    | ParticipateFirst          // 'Participate first to be able to see the results'
    | ResultsUnavailable        // 'Results unavailable: ... the quiz is already closed'

  /** 200/201 with a body, 404 (`get_object_or_404`, `get_list_or_404`), or 403. */
  datatype Response<T> = Ok(value: T) | NotFound | Forbidden(reason: Denial)
}
