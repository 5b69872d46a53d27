# helper-html in Dafny

A model of the HTML helper library of the Plaisio framework, with proofs of what it promises. The library has five parts:

- **Html**: the current static API in `src/Html.php`. It covers txt2Html, txt2Slug and getAutoId. It renders one attribute (htmlAttributeHelper), which includes cleaning class lists (cleanClasses). It writes start tags and void tags (htmlTagHelper, htmlVoidElementHelper). It renders the nested structures that htmlNested accepts (htmlNestedHelper).
- **HelperHtml**: the older flat API in `src/Helper/Html.php`. It covers generateAttribute, generateTag, generateVoidElement, generateElement, txt2Html, txt2Slug and getAutoId.
- **Element**: the attribute bag of an element (`src/HtmlElement.php`), with its class list and setters.
- **Walker**: the CSS class helper of the renderers (`src/RenderWalker.php`).
- **Css**: the module and sub-module classes of `src/CssModule.php`.

The helper modules model the parts of PHP they depend on:

- **Php**: PHP values, htmlspecialchars with ENT_QUOTES, integer-to-string conversion, explode and implode on a space, array_unique and sort.
- **Slug**: the pipeline of txt2Slug. It lower-cases, transliterates, turns every run of characters outside [0-9a-z] into one '-', and trims '-'.
- **Compare**: lemmas on where the old and current APIs agree, and the inputs on which they differ.

Each PHP exception becomes an `Err` of a `Result`. The functions `AttributeText`, `EntryText`, `AttributesText` and `Rendered` are the specifications. The methods that follow the source's loops and in-place string appends are proved equal to them.

Some behaviour of the source is easy to miss, and the model keeps it:

- **Class case of htmlAttributeHelper.** The case is `case 'class' and is_array($value)`. PHP compares the name loosely with the boolean "the value is an array". So an array value under any name not matched earlier is rendered as a class list. The name `''` always throws: with a non-array value it reaches the class branch; with an array value it falls through to txt2Html, which refuses arrays. The other name that converts to false, `'0'`, never reaches the switch as an array key (next point).
- **Integer keys.** PHP stores an array key such as `'42'`, `'-5'` or `'0'` as an integer. `src/Html.php` declares strict types, so passing such a key to the string parameter `$name` of htmlAttributeHelper raises a TypeError. `EntryText` refuses these keys with the error `IntegerName`; `Php.IntegerKey` says which keys they are. The old API has no strict types and writes them as names.
- **Double escaping of class lists.** Class names are escaped by txt2Html in cleanClasses and then escaped again when joined.
- **Old API conversions.** The old API runs with PHP 7 weak typing: htmlspecialchars of an array or object gives the empty string. Its default case omits `false`, where the current API writes `"0"`.
- **draggable.** The old API has no `'auto'` or `'false'` string case for draggable.
- **Transliteration tables.** The old table is the current one without `'ů'`.

## Model

| member | source | states |
|---|---|---|
| Php.NatToStringRoundTrip | src/Html.php:188-191 | the decimal text of a natural number parses back to it |
| Php.IntToStringRoundTrip | src/Html.php:188-191 | a (string) cast of an int, sign included, parses back to the int |
| Php.IntToStringInjective | src/Html.php:118-123 | distinct integers have distinct decimal texts |
| Php.IntegerKeyIff | src/Html.php:437-440 | the keys PHP stores as integers are exactly the decimal forms of the integers from -2^63 to 2^63-1 |
| Php.UnescapeEscapeChar | src/Html.php:185-186 | decoding the entity htmlspecialchars writes for a character gives the character back |
| Php.EscapeRoundTrip | src/Html.php:185-186 | htmlspecialchars is inverted by decoding the five entities |
| Php.EscapedIsMarkupFree | src/Html.php:185-186 | escaped text holds none of < > & " ' |
| Php.EscapePlainText | src/Html.php:185-186 | text without special characters is left unchanged by escaping |
| Php.EscapeConcat | src/Html.php:185-186 | escaping distributes over concatenation |
| Php.StrCast | src/RenderWalker.php:66 | concatenating a value as a string fails exactly for objects |
| Php.Explode | src/HtmlElement.php:80 | explode on ' ' always returns at least one part |
| Php.ImplodeExplode | src/HtmlElement.php:80 | implode undoes explode |
| Php.ExplodeImplode | src/HtmlElement.php:80 | explode undoes implode of a non-empty list of space-free parts |
| Php.ExplodeSpaceFree | src/HtmlElement.php:80 | no part explode returns holds a space |
| Php.ExplodeAppend | src/HtmlElement.php:46-47 | exploding a + ' ' + b gives the parts of a followed by those of b |
| Php.ImplodeEmpty | src/Html.php:332-333 | a list of non-empty parts implodes to '' exactly when it is empty |
| Php.Without | src/HtmlElement.php:80 | array_diff with one value keeps exactly the other parts, and is no longer |
| Php.WithoutKeepsSpaceFree | src/HtmlElement.php:80 | removing parts keeps every remaining part space-free |
| Php.Unique | src/Html.php:243 | array_unique keeps the same set of values and leaves no duplicates |
| Php.StrLeqTotal | src/Html.php:244 | the string order of sort is total |
| Php.StrLeqTransitive | src/Html.php:244 | the string order of sort is transitive |
| Php.StrLeqAntisymmetric | src/Html.php:244 | the string order of sort is antisymmetric |
| Php.InsertKeepsOrder | src/Html.php:244 | inserting into a sorted list keeps it sorted and adds exactly one element |
| Php.SortIsOrderedPermutation | src/Html.php:244 | sort returns an ordered permutation of its input |
| Php.DistinctCountsOnce | src/Html.php:243 | a list without duplicates holds each value at most once |
| Php.SortUniqueIsStrict | src/Html.php:243-244 | array_unique then sort gives a sorted, duplicate-free list of exactly the input's values |
| Slug.LowerCase | src/Html.php:219 | mb_strtolower keeps the length and maps each character on its own |
| Slug.TransliterateAgree | src/Html.php:219 | two tables that agree on every character of a string transliterate it alike |
| Slug.TransliterateConcat | src/Html.php:219 | strtr by single characters distributes over concatenation |
| Slug.SlugChars | src/Html.php:219 | the characters in [0-9a-z] of a string are at most as many as the string's |
| Slug.SlugCharsConcat | src/Html.php:219 | the [0-9a-z] characters of a concatenation are those of its parts |
| Slug.SkipRun | src/Html.php:219 | skipping a run of other characters leaves a suffix that starts with a slug character, keeping the same slug characters |
| Slug.TrimStart | src/Html.php:219 | trimming '-' at the start leaves a suffix that does not start with '-' |
| Slug.TrimEnd | src/Html.php:219 | trimming '-' at the end leaves a prefix that does not end with '-' |
| Slug.CollapseShape | src/Html.php:219 | after preg_replace only [0-9a-z-] remain and no '--' |
| Slug.CollapseKeepsSlugChars | src/Html.php:219 | preg_replace keeps every [0-9a-z] character, in order |
| Slug.SliceKeepsShape | src/Html.php:219 | any slice of a well-shaped string is well shaped |
| Slug.TrimStartKeepsSlugChars | src/Html.php:219 | trim at the start removes only '-' |
| Slug.TrimEndKeepsSlugChars | src/Html.php:219 | trim at the end removes only '-' |
| Slug.SlugifyIsSlug | src/Html.php:219 | the slug holds only [0-9a-z-], never '--', and does not start or end with '-' |
| Slug.SlugifyKeepsSlugChars | src/Html.php:219 | the slug keeps, in order, exactly the [0-9a-z] characters of the lower-cased, transliterated input |
| Slug.SlugEmptyIff | src/Html.php:219 | the slug is empty exactly when the lower-cased, transliterated input has no [0-9a-z] character |
| Slug.TransliterateKeepsSlug | src/Html.php:219 | a table that leaves [0-9a-z-] alone leaves a slug unchanged |
| Slug.CollapseKeepsSlug | src/Html.php:219 | preg_replace leaves a well-shaped string unchanged |
| Slug.CleanSlugUnchanged | src/Html.php:219 | preg_replace and trim leave a slug unchanged |
| Slug.LowerCaseKeepsSlug | src/Html.php:219 | lower-casing leaves [0-9a-z-] text unchanged |
| Slug.SlugFixedPoint | src/Html.php:219 | a slug is its own slug |
| Slug.SlugifyIdempotent | src/Html.php:219 | slugifying a slug gives it back |
| Html.Txt2Html | src/Html.php:181-202 | strings are escaped and decode back; ints parse back; null is '', true '1', false '0'; arrays and objects fail with their type name; the result holds no markup |
| Html.DecimalIsMarkupFree | src/Html.php:188-191 | the text of an int holds no markup |
| Html.Txt2Slug | src/Html.php:215-220 | null gives ''; every result is a slug |
| Html.TransKeepsSlugAlphabet | src/Html.php:36-106 | the table rewrites no character of [0-9a-z-] |
| Html.Txt2SlugIdempotent | src/Html.php:215-220 | txt2Slug of a slug is that slug |
| Html.NordicLowered | src/Html.php:219 | mb_strtolower on 'Mørdag' |
| Html.NordicTransliterated | src/Html.php:36-106 | strtr on 'mørdag' |
| Html.Txt2SlugNordic | test/HtmlTest.php:612 | 'Mørdag' becomes 'mordag' |
| Html.LigatureLowered | src/Html.php:219 | mb_strtolower on 'Æther' |
| Html.LigatureTransliterated | src/Html.php:36-106 | strtr on 'æther' |
| Html.Txt2SlugLigature | test/HtmlTest.php:608 | 'Æther' becomes 'aether' |
| Html.UnknownLowered | src/Html.php:219 | mb_strtolower turns 'əƏ' into 'əə' |
| Html.UnknownTransliterated | src/Html.php:36-106 | the table has no entry for 'ə' |
| Html.Txt2SlugUnknownLetters | test/HtmlTest.php:607 | 'əƏ' leaves an empty slug |
| Html.EscapedClassesFailFast | src/Html.php:234-241 | after the first class that fails, the rest of the list is never looked at |
| Html.CleanClasses | src/Html.php:230-247 | the loop over the classes computes the cleaned class list, failing with the first class txt2Html refuses |
| Html.EscapedClassesFailure | src/Html.php:234-241 | the classes escape without error exactly when all are scalars; otherwise the first non-scalar's type is the error |
| Html.ProducesStep | src/Html.php:234-241 | a class was produced by the list exactly when it was produced before the last item or by the last item |
| Html.EscapedClassesContents | src/Html.php:234-241 | the cleaned classes are exactly the non-empty escaped texts of the given classes |
| Html.CleanedClassesMeaning | src/Html.php:230-247 | cleanClasses fails exactly when a member is an array or an object, reports the first one, and otherwise returns a sorted, duplicate-free list of exactly the non-empty escaped classes |
| Html.AttributeHelper | src/Html.php:259-351 | the switch appends exactly the specified attribute text to the HTML so far, or fails with the specified error |
| Html.AttributesFailFast | src/Html.php:437-440 | after the first failing attribute the rest are never rendered |
| Html.TagHelper | src/Html.php:433-442 | '<', the tag name, every attribute in order and '>' are appended, or the first error is raised, an integer key's TypeError included |
| Html.VoidElementHelper | src/Html.php:456-465 | the same, closed with '/>' |
| Html.RenderedListFailFast | src/Html.php:368-371 | after the first failing list item the rest are never rendered |
| Html.NestedHelper | src/Html.php:360-422 | the recursive walk appends exactly the rendering of the structure, and never shortens the HTML so far |
| Html.HtmlNested | src/Html.php:161-167 | htmlNested returns the rendering of the structure |
| Html.RenderedListConcat | src/Html.php:368-371 | a list renders as its two halves one after the other |
| Html.AttributeTextSucceedsIff | src/Html.php:259-351 | an attribute renders without an exception exactly when it is renderable |
| Html.AttributesTextSucceedsIff | src/Html.php:437-440 | the attributes of a tag render exactly when every key is a string key and every attribute renders |
| Html.RenderedSucceedsIff | src/Html.php:360-422 | a structure renders without an exception exactly when it is renderable |
| Html.RenderedListSucceedsIff | src/Html.php:368-371 | a list renders exactly when each of its items does |
| Html.BooleanNamesMarkupFree | src/Html.php:264-274 | the boolean attribute names hold no markup |
| Html.FlagAttributeIsSafe | src/Html.php:264-283 | a boolean attribute is absent or of the form ` n="v"` with plain n and v |
| Html.DraggableIsSafe | src/Html.php:286-302 | draggable is absent or well formed |
| Html.PairAttributeIsSafe | src/Html.php:304-329 | contenteditable, autocomplete and translate are absent or well formed |
| Html.ComputedAttributeIsSafe | src/Html.php:331-349 | a class list or default attribute that renders is absent or well formed |
| Html.ClassAttributeIsSafe | src/Html.php:331-339 | a class list that renders is absent or well formed |
| Html.PlainAttributeIsSafe | src/Html.php:341-349 | a default attribute that renders is absent or well formed, whatever its name |
| Html.AttributeTextIsSafe | src/Html.php:259-351 | every attribute that renders is absent or of the form ` n="v"` with plain n and v |
| Html.BooleanAttributeRule | src/Html.php:264-283 | a boolean attribute is written as name="name" exactly when its value is not empty, and omitted otherwise |
| Html.DraggableRule | src/Html.php:286-302 | draggable: null is omitted, 'auto' gives auto, an empty value or 'false' gives false, anything else true |
| Html.PairAttributeRule | src/Html.php:304-329 | null omits the attribute; otherwise true/false, on/off or yes/no by emptiness |
| Html.ArrayValueIsClassList | src/Html.php:331-339 | an array value under any name not matched earlier is rendered as the class attribute |
| Html.FalsyNameFails | src/Html.php:331-351 | the key '0' is refused as an integer; the key '' always throws: with an array value in txt2Html, with any other value in the class branch |
| Html.IntegerNameFails | src/Html.php:437-440 | the decimal form of any integer in PHP's range, as an attribute key, is refused before htmlAttributeHelper runs |
| Html.ClassListOmittedIffEmpty | src/Html.php:331-339 | the class attribute is omitted exactly when no class is left after cleaning |
| Html.ScalarClassIsPlain | src/Html.php:331-341 | a class given as a single value takes the default case |
| Html.ClassStringText | src/Html.php:341-349 | a class given as one string is escaped once and written as it is |
| Html.DefaultRule | src/Html.php:341-349 | the default case omits exactly null and ''; false, 0 and '0' are written as "0" |
| Html.EscapedAttributeExample | test/HtmlTest.php:553-556 | both the name and the value of an attribute are escaped |
| Html.TestClassAttribute | test/HtmlTest.php:461 | class 'test' renders as class="test" |
| Html.NullInnerExample | test/HtmlTest.php:458-466 | a tag with a null inner structure renders with no content |
| Html.NullListExample | test/HtmlTest.php:447-452 | a list of one null renders as '' |
| Html.VoidElementExample | test/HtmlTest.php:351-352 | a record with only the tag br renders as '<br/>' |
| Html.AutoIdInjective | src/Html.php:118-123 | two ids are equal exactly when their counters are |
| Html.AutoIdCounter.GetAutoId | src/Html.php:118-123 | the counter goes up by one and the id is 'plaisio-id-' and the new counter |
| Html.SuccessiveIdsDiffer | src/Html.php:118-123 | two calls in a row give different ids |
| HelperHtml.Txt2Html | src/Helper/Html.php:306-309 | strings are escaped and decode back; ints parse back; true '1'; false, null, arrays and objects ''; no markup in the result |
| HelperHtml.Txt2Slug | src/Helper/Html.php:322-325 | every result is a slug |
| HelperHtml.TransKeepsSlugAlphabet | src/Helper/Html.php:34-103 | the old table rewrites no character of [0-9a-z-] |
| HelperHtml.Txt2SlugIdempotent | src/Helper/Html.php:322-325 | txt2Slug of a slug is that slug |
| HelperHtml.BooleanAttributeRule | src/Helper/Html.php:126-145 | a boolean attribute is written as name="name" exactly when its value is not empty, and omitted exactly when it is |
| HelperHtml.ToggleAttributeRule | src/Helper/Html.php:148-174 | null omits the attribute; otherwise true/false, on/off or yes/no by emptiness |
| HelperHtml.DraggableAutoIsTrue | src/Helper/Html.php:148-156 | draggable 'auto' is written as true |
| HelperHtml.DefaultRule | src/Helper/Html.php:176-185 | the default case omits exactly null, false and ''; 0 and '0' are written as "0" |
| HelperHtml.GenerateAttributeIsSafe | src/Helper/Html.php:119-189 | every generated attribute is '' or of the form ` n="v"` with plain n and v |
| HelperHtml.Visible | src/Helper/Html.php:237-241 | the attributes not ignored are exactly those whose name does not start with '_' |
| HelperHtml.HiddenAttributesSkipped | src/Helper/Html.php:237-241 | attributes with a leading underscore contribute nothing |
| HelperHtml.AttributesTextConcat | src/Helper/Html.php:237-241 | the attributes of a list are those of its parts one after the other |
| HelperHtml.AppendAttributes | src/Helper/Html.php:237-241 | the loop appends exactly the attributes' text |
| HelperHtml.GenerateTag | src/Helper/Html.php:233-245 | '<', the tag name, each attribute not ignored, and '>' |
| HelperHtml.GenerateVoidElement | src/Helper/Html.php:263-275 | the same, closed with '/>' |
| HelperHtml.GenerateElement | src/Helper/Html.php:209-218 | the start tag, the content (verbatim or escaped), then the end tag |
| HelperHtml.EmptyContent | src/Helper/Html.php:209-218 | an inner text of null or '' gives no content |
| HelperHtml.TextContent | src/Helper/Html.php:209-218 | escaped content holds no markup and decodes to the inner text |
| HelperHtml.AutoIdInjective | src/Helper/Html.php:287-292 | two ids are equal exactly when their counters are |
| HelperHtml.AutoIdCounter.GetAutoId | src/Helper/Html.php:287-292 | the counter goes up by one and the id is 'abc_' and the new counter |
| HelperHtml.SuccessiveIdsDiffer | src/Helper/Html.php:287-292 | two calls in a row give different ids |
| Compare.BooleanAttributesAgree | src/Helper/Html.php:126-145 | both APIs render boolean attributes alike |
| Compare.ToggleAttributesAgree | src/Helper/Html.php:148-174 | both APIs render contenteditable, autocomplete and translate alike |
| Compare.DraggableAgreesIff | src/Helper/Html.php:148-156 | the APIs agree on draggable exactly when the value is neither 'auto' nor 'false' |
| Compare.IntegerNamesDisagree | src/Helper/Html.php:237-240 | a key PHP stores as an integer is refused by the current API and written by the old one |
| Compare.DefaultAttributesAgreeIff | src/Helper/Html.php:176-185 | for a scalar value of any other attribute the APIs agree exactly when the value is not false |
| Compare.SlugsAgree | src/Helper/Html.php:34-103 | both txt2Slug agree on every string without 'ů' or 'Ů' |
| Compare.SlugsDifferOnRingU | src/Helper/Html.php:34-103 | on 'ů' the current API gives 'u' and the older one '' |
| Element.AddedClassTokens | src/HtmlElement.php:44-48 | after addClass the class list is the old one with the new class at its end |
| Element.RemovedClassTokens | src/HtmlElement.php:74-81 | after removeClass the class is gone and the other classes keep their order |
| Element.WithoutAbsent | src/HtmlElement.php:80 | removing a class that is not there changes nothing |
| Element.WithoutAppend | src/HtmlElement.php:80 | array_diff distributes over concatenation |
| Element.HtmlElement.GetAttribute | src/HtmlElement.php:63-66 | the stored value, or null when the attribute is absent |
| Element.HtmlElement.AddClass | src/HtmlElement.php:39-53 | an empty class changes nothing; otherwise the class is appended after a space, or becomes the class attribute |
| Element.HtmlElement.RemoveClass | src/HtmlElement.php:74-81 | an empty class or no class attribute changes nothing; otherwise every occurrence of the class is removed |
| Element.HtmlElement.SetAttrAccessKey | src/HtmlElement.php:89-92 | sets accesskey and nothing else |
| Element.HtmlElement.SetAttrContentEditable | src/HtmlElement.php:104-107 | sets contenteditable and nothing else |
| Element.HtmlElement.SetAttrContextMenu | src/HtmlElement.php:115-118 | sets contextmenu and nothing else |
| Element.HtmlElement.SetAttrData | src/HtmlElement.php:127-130 | sets 'data-' followed by the name, and nothing else |
| Element.HtmlElement.SetAttrDir | src/HtmlElement.php:141-144 | sets dir and nothing else |
| Element.HtmlElement.SetAttrDraggable | src/HtmlElement.php:155-158 | sets draggable and nothing else |
| Element.HtmlElement.SetAttrDropZone | src/HtmlElement.php:166-169 | sets dropzone and nothing else |
| Element.HtmlElement.SetAttrHidden | src/HtmlElement.php:179-182 | sets hidden and nothing else |
| Element.HtmlElement.SetAttrId | src/HtmlElement.php:190-193 | sets id and nothing else |
| Element.HtmlElement.SetAttrLang | src/HtmlElement.php:201-204 | sets lang and nothing else |
| Element.HtmlElement.SetAttrSpellCheck | src/HtmlElement.php:215-218 | sets spellcheck and nothing else |
| Element.HtmlElement.SetAttrStyle | src/HtmlElement.php:226-229 | sets style and nothing else |
| Element.HtmlElement.SetAttrTabIndex | src/HtmlElement.php:237-240 | sets tabindex and nothing else |
| Element.HtmlElement.SetAttrTitle | src/HtmlElement.php:248-251 | sets title and nothing else |
| Element.HtmlElement.SetAttrTranslate | src/HtmlElement.php:262-265 | sets translate and nothing else |
| Element.HtmlElement.SetFakeAttribute | src/HtmlElement.php:275-283 | a name without a leading '_' is refused and nothing changes; otherwise that attribute is set |
| Element.HtmlElement.UnsetClass | src/HtmlElement.php:289-292 | the class attribute is gone and nothing else changes |
| Element.LastWriteWins | src/HtmlElement.php:190-193 | setting an attribute twice keeps the second value |
| Element.FakeAttributeIsKept | src/HtmlElement.php:275-283 | a fake attribute can be read back |
| Element.AddThenRemove | src/HtmlElement.php:39-81 | adding and then removing a new class gives back the old attributes |
| Walker.AppendSubClasses | src/RenderWalker.php:56-74 | a string sub-class, or each of an array's, is prefixed with the module class and '-'; anything else but null is an invalid argument |
| Walker.AppendAdditionClasses | src/RenderWalker.php:76-94 | a string addition class, or each of an array's, is appended as it is; anything else but null is an invalid argument |
| Walker.PrefixedContents | src/RenderWalker.php:62-68 | string sub-classes become the module class, '-' and the sub-class, one for one |
| Walker.PrefixedLength | src/RenderWalker.php:62-68 | one class per sub-class |
| Walker.PrefixedFailsOnObject | src/RenderWalker.php:62-68 | the sub-classes fail exactly when one of them is an object |
| Walker.ClassListShape | src/RenderWalker.php:48-97 | the module class comes first, and there is one entry per class given |
| Walker.ClassListContents | src/RenderWalker.php:48-97 | the walker's classes, then the prefixed sub-classes, then the addition classes verbatim |
| Walker.PrefixedFailFast | src/RenderWalker.php:62-68 | after the first failing sub-class the rest are never looked at |
| Walker.SingleStringIsList | src/RenderWalker.php:56-94 | a single string is treated as a one-element array |
| Walker.InvalidArguments | src/RenderWalker.php:56-94 | a boolean, int or object argument is refused with its type name |
| Walker.RenderWalker.constructor | src/RenderWalker.php:33-37 | the walker holds the module class and the sub-module class given |
| Walker.RenderWalker.GetClasses | src/RenderWalker.php:48-97 | the two loops compute the specified class list, or raise its error |
| Walker.RenderWalker.SetModuleClass | src/RenderWalker.php:129-134 | sets the module class and keeps the sub-module class |
| Walker.RenderWalker.SetSubModuleClass | src/RenderWalker.php:144-149 | sets the sub-module class and keeps the module class |
| Walker.SettersThenGetters | src/RenderWalker.php:105-149 | the getters return what the setters set |
| Css.CssModule.constructor | src/CssModule.php:32-46 | the module holds the two classes given |
| Css.CssModule.SetModuleClass | src/CssModule.php:56-61 | sets the module class and keeps the sub-module class |
| Css.CssModule.SetSubModuleClass | src/CssModule.php:71-76 | sets the sub-module class and keeps the module class |
| Css.ChainedSetters | src/CssModule.php:56-76 | chained setters leave both classes set and readable |

## Left out

- Floating-point values: the value type has no floats, so the float case of txt2Html ((string) of a float) is not modelled.
- Encoding: strings are sequences of characters; invalid UTF-8 handling by htmlspecialchars and the encoding argument are not modelled.
- Slug.LowerCase: lower-casing covers ASCII, Latin-1, Cyrillic, the Latin Extended-A letters of the tables and the capital schwa, not all of mb_strtolower's Unicode case mapping.
- Php.Sort: compares strings by character; PHP's SORT_REGULAR compares numeric strings numerically, which is not modelled.
- PHP arrays: attribute lists are sequences of (name, value) pairs with string names; `Php.IntegerKey` picks out the names PHP would store as integer keys. A list versus record structure in htmlNested is decided by the datatype rather than by the first key. The structure types also cannot hold a 'tag' that is not a string, an 'attr' that is not an array, or an 'inner' or list item that is not an array, so the TypeErrors strict types raise for those at the calls of htmlTagHelper, htmlVoidElementHelper and htmlNestedHelper are not modelled.
- HelperHtml.GenerateAttribute: under PHP 7 the integer key 0 equals the string 'autofocus' in the switch's loose comparison, so the old API writes the key '0' as a boolean attribute. The model treats '0' as the string it was written as.
- Element.HtmlElement: the attributes are a map, so the insertion order PHP keeps for them is not modelled.
- Element.HtmlElement.Valid: requires the class attribute to hold a string. The requirement holds because only addClass, removeClass and unsetClass touch that key; a caller that stored an array there through a PHP array literal is outside the model.
- HelperHtml: modelled with PHP 7 semantics, where htmlspecialchars of an array or object returns null with a warning. Under PHP 8 it throws a TypeError. HelperHtml.Txt2Slug takes a string, so the null argument PHP 7 turns into '' is not modelled. HelperHtml.GenerateElement takes the inner text as an optional string, so an integer that PHP 7 converts is not modelled. PHP's default arguments (an empty attribute list, an empty inner text, no HTML flag, null sub-classes and addition classes for getClasses) are not modelled: callers pass every argument.
- Objects with __toString: an object is never convertible to a string in the model.
- Css.CssModule: the source is a trait used by classes that own the two fields. It is modelled as a class with a constructor.
- Html.AutoIdCounter and HelperHtml.AutoIdCounter: the static counters are objects passed to the caller, with no claim about concurrent calls.
- Html.AutoIdInjective, Html.SuccessiveIdsDiffer, HelperHtml.AutoIdInjective and HelperHtml.SuccessiveIdsDiffer: the counters are unbounded integers. At PHP_INT_MAX, PHP's `++` turns the counter into a float, whose text is not modelled.
- echoNested and the other output-writing helpers: they print instead of returning a string, so they are not part of this model.
- Html.Txt2SlugNordic, Html.Txt2SlugLigature and Html.Txt2SlugUnknownLetters cover three of the test's slug cases; the longer Cyrillic and mixed cases are not stated, because evaluating them is too costly for the verifier.
- Html.CleanedClassesMeaning states the cleaned list by its properties; the concrete test with duplicate classes is not stated for the same reason.
- Html.RenderedSucceedsIff and Html.RenderedListConcat cover nested structures in general; the nested tests (a link inside an element, a list of elements, the table of testHtmlNested11) have no example lemma of their own, for the same reason.
- test/HtmlElementTest.php calls setAttrClass, which the modelled src/HtmlElement.php does not have, and test/TestElement.php uses HtmlElement as a trait: both target a later version of the file and are not part of this model. test/RenderWalkerTest.php is scaffolding around the same operations.
