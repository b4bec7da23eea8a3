/** The mirror part of the configuration, and the ways a request can fail. */
module Config {

  /** A strategy is a string in the configuration; `Unknown` is any other than the three. */
  datatype Strategy =
    | MirrorCredentialsFirst
    | MirrorCredentialsLast
    | MirrorCredentialsOnly
    | Unknown(text: string)

  datatype MirrorConfig = MirrorConfig(endpoint: string, strategy: Strategy)

  /** `UnparsableMirror` carries the image, as the source's message does, not the endpoint. */
  datatype Error =
    | PluginFailed(message: string)
    | UnparsableImage(image: string)
    | UnparsableMirror(image: string)
    | InvalidImageReference(image: string)
    | UnsupportedStrategy(strategy: Strategy)
}
