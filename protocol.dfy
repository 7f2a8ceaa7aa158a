/** Optional values. */
module Wrappers {
  datatype Option<T> = None | Some(value: T)
}

/** The JSON bodies exchanged between the browser session and the rule engine
    (`/api/start-game`, `/api/submit-word`, `/api/get-hint`). */
module Protocol {

  /** Body of a word submission. */
  datatype WordSubmission = WordSubmission(
    currentWord: string,
    newWord: string,
    usedWords: seq<string>,
    fromHint: bool)

  /** Answer to a word submission: `success: false` with a message, or
      `success: true` with the points, the `modified_rule` flag and `game_over`. */
  datatype SubmitReply =
    | Refused(message: string)
    | Scored(points: int, modifiedRule: bool, gameOver: bool)

  /** Body of a hint request. */
  datatype HintRequest = HintRequest(currentWord: string, usedWords: seq<string>)

  /** Answer to a hint request. */
  datatype HintReply =
    | NoHints(message: string)
    | Hints(originalRuleHints: seq<string>, modifiedRuleHints: seq<string>, gameOver: bool)

  /** Answer to a start request. */
  datatype StartReply = StartFailed(message: string) | Started(word: string)

  /** What the browser gets from `fetch` and `response.json()`: a decoded body,
      or an exception (unreachable server, a body that is not JSON). */
  datatype Reply<T> = Delivered(body: T) | NetworkError(reason: string)
}
