/** What the AWS enum normalisers share: the token returned for a blank
    input, and the outcome of a lookup (the canonical token, or the message
    of the RuntimeException the Java code throws). */
module AwsLookup {

  /** Constants.Miscellaneous.NOT_RELEVANT of the jclouds actions. */
  const NOT_RELEVANT: string := "Not relevant"

  datatype Lookup = Found(value: string) | Unrecognized(message: string)
}
