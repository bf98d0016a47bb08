/**
 * What the plugin's filters read from WordPress during one page request.
 * `get_option`, `apply_filters`, `amp_is_request`, `is_single`, `is_admin`
 * and `esc_url` are not modelled; their answers are fields of a request.
 */
module WordPress {

  /** The answers WordPress gives to the plugin during one request. */
  datatype Request = Request(
    /** the stored options; a missing option reads as `false`, i.e. "" */
    options: map<string, string>,
    /** `function_exists('amp_is_request') && amp_is_request()` */
    isAmp: bool,
    /** `apply_filters('disable_rt_scripts_optimizer', false)` */
    disabledByFilter: bool,
    /** `is_single()` */
    isSingle: bool,
    /** `is_admin()` */
    isAdmin: bool,
    /** `esc_url()` */
    escUrl: string -> string,
    /** `apply_filters('emoji_svg_url', ...)` applied to its default */
    emojiSvgUrlFilter: string -> string)

  const DisableJsOptimizations := "rt_scripts_optimizer_disable_js_optimizations"
  const DisableCssOptimizations := "rt_scripts_optimizer_disable_css_optimizations"
  const ExcludeHandles := "rt_scripts_optimizer_exclude_handles"
  const ExcludePaths := "rt_scripts_optimizer_exclude_paths"
  const CommentOutStyleHandles := "rt_scripts_optimizer_comment_out_style_handles"
  const StyleAsyncHandles := "rt_scripts_optimizer_style_async_handles"
  const StyleAsyncHandlesOnEvent := "rt_scripts_optimizer_style_async_handles_onevent"
  const SkipCssConcatinationHandles := "rt_scripts_optimizer_skip_css_concatination_handles"

  /** `get_option(name)` as a string: `false` (not set) becomes "" wherever the
      plugin uses it, in `explode` and in the comparison `'1' === ...`. */
  function GetOption(req: Request, name: string): string
  {
    if name in req.options then req.options[name] else ""
  }

  /** `'1' === get_option(name)` */
  predicate OptionIsOne(req: Request, name: string)
  {
    GetOption(req, name) == "1"
  }
}
