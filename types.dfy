/** The records exchanged between the parts of the extension, and its constants. */
module Types {

  /** An email found in a prompt. `id` stands for the generated identifier, an opaque fresh value. */
  datatype EmailIssue = EmailIssue(id: nat, email: string, detectedAt: int, url: string, promptPreview: string)

  /** A suppression: `email` is not reported again before `expiresAt` (milliseconds since the epoch). */
  datatype DismissedEmail = DismissedEmail(email: string, dismissedAt: int, expiresAt: int)

  /** The text that replaces every detected email. */
  const EMAIL_PLACEHOLDER: string := "[EMAIL_ADDRESS]"

  /** How long a dismissal lasts: 24 hours in milliseconds. */
  const DISMISS_DURATION_MS: int := 24 * 60 * 60 * 1000

  /** Number of prompt characters kept as an issue's preview. */
  const MAX_PROMPT_PREVIEW_LENGTH: nat := 100

  /** The path shared by the chat endpoints. */
  const CONVERSATION_PATH: string := "/backend-api/conversation"

  /** The two chat endpoints whose requests are intercepted. */
  const CHATGPT_API_PATTERNS: seq<string> := [
    "https://chatgpt.com" + CONVERSATION_PATH,
    "https://chat.openai.com" + CONVERSATION_PATH
  ]

  /** The popup's tabs. */
  datatype TabId = IssuesFound | History {
    function Name(): string {
      match this
      case IssuesFound => "issues"
      case History => "history"
    }
  }
}
