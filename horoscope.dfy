/**
 * The request handler `generate_horoscope` of the horoscope service
 * (app.py): it builds a prompt from the caller's birthdate and zodiac sign,
 * asks an external text-generation service for a horoscope, post-processes
 * the returned text and echoes both inputs beside the result; a failure of
 * the external call becomes an HTTP 500 error carrying the failure's message.
 *
 * The text-generation call is a parameter `infer`, given the prompt, the
 * model identifier and the token budget.
 */
module Horoscope {
  import opened Prompting
  import opened PostProcess

  /** The JSON body of a POST request. */
  datatype BirthdateRequest = BirthdateRequest(birthdate: string, zodiac_sign: string)

  /** The JSON object returned on success. */
  datatype HoroscopeResponse =
    HoroscopeResponse(birthdate: string, zodiac_sign: string, horoscope: string)

  /** A response, or the `HTTPException` raised instead. */
  datatype Outcome =
    | Ok(response: HoroscopeResponse)
    | HttpError(status_code: nat, detail: string)

  const ModelName: string := "meta-llama/Llama-3.2-3B-Instruct"
  const MaxNewTokens: nat := 200

  /** `generate_horoscope(birthdate, zodiac_sign)` with the text-generation
      call as `infer`. */
  function GenerateHoroscope(
    birthdate: string, zodiac_sign: string,
    infer: (string, string, nat) -> InferenceResult): (r: Outcome)
    ensures var result := infer(Prompt(birthdate, zodiac_sign), ModelName, MaxNewTokens);
      && (r.Ok? <==> !result.Failure?)
      && (result.Failure? ==> r == HttpError(500, result.message))
      && (r.Ok? ==> r.response.birthdate == birthdate && r.response.zodiac_sign == zodiac_sign)
      && (r.Ok? ==> r.response.horoscope == PostProcessed(result))
      && (result.NonText? ==> r.response.horoscope == Placeholder)
      && (r.Ok? ==> '\n' !in r.response.horoscope)
  {
    var result := infer(Prompt(birthdate, zodiac_sign), ModelName, MaxNewTokens);
    if result.Failure? then HttpError(500, result.message)
    else
      Ok(HoroscopeResponse(birthdate, zodiac_sign, PostProcessed(result)))
  }

  /** The POST route `/daily-horoscope/` (app.py:40-42): the request body's
      two fields are passed on, so they are echoed on success, and a failing
      call is still a 500 carrying its message. */
  function PostDailyHoroscope(
    request: BirthdateRequest,
    infer: (string, string, nat) -> InferenceResult): (r: Outcome)
    ensures var result := infer(Prompt(request.birthdate, request.zodiac_sign), ModelName, MaxNewTokens);
      && (r.Ok? <==> !result.Failure?)
      && (result.Failure? ==> r == HttpError(500, result.message))
      && (r.Ok? ==> r.response.birthdate == request.birthdate)
      && (r.Ok? ==> r.response.zodiac_sign == request.zodiac_sign)
      && (r.Ok? ==> r.response.horoscope == PostProcessed(result))
  {
    GenerateHoroscope(request.birthdate, request.zodiac_sign, infer)
  }
}
