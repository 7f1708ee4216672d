/**
 * Configuration values the shortener reads from the environment
 * (`AUTO_SUFFIX_LEN`, `APP_HOST`, `APP_PORT`) or from the `config` module
 * (`AUTO_SUFFIX_LEN`, `BASE_URL`). Their deployed values are not part of this
 * model; the values below are placeholders. The project verifies with a
 * suffix width from 4 to 7; at widths 2 and 3 only
 * Shortener.UserValidationExamples fails, since 789087 no longer fits. Other
 * widths are not claimed.
 */
module Settings {

  /** Fixed width of auto-generated suffixes. */
  const AutoSuffixLen: nat := 5

  const AppHost: string := "localhost"
  const AppPort: string := "8000"
  const BaseUrl: string := "http://localhost:8000"
}
