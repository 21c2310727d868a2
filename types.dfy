/** The records shared between the service and the components (types.ts). */
module Types {

  /** What the form submits: the industry and the optional style preferences, as typed. */
  datatype UserInput = UserInput(industry: string, preferences: string)

  /** One entry of the parsed idea-generation response. */
  datatype NameIdea = NameIdea(name: string, description: string)

  /** The record rendered by one logo card; an empty payload means "not available". */
  datatype GeneratedResult = GeneratedResult(
    name: string,
    description: string,
    pngBase64: string,
    svgCode: string)

  /** A value thrown by the service: an `Error` object with its message, or anything else. */
  datatype Thrown = ErrorObject(message: string) | NonErrorValue
}
