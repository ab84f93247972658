/**
 * The diagnostic text of `ErrorService`: every logged or thrown message
 * carries the library prefix. Writing to the console is not modelled; the
 * classes keep the messages they would log in a ghost list instead.
 */
module ErrorService {

  function BuildError(message: string): string {
    "[DoggoTranslatorTS] " + message
  }
}
